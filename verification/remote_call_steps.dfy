/** Every step of a remote call keeps the invariant. */
module RemoteCallSteps {
  import opened RemoteCalls

  lemma NewIdFresh(s: Sys, ph: Phases, d: nat)
    requires Inv(s, ph)
    ensures var c := Key(d, s.NextId(d));
      c !in ph && c !in s.callers && c !in s.consumeTable && c !in s.receipts && c !in s.services
  {}

  lemma CallersStep(callers: map<Key, Caller>, running: map<Key, nat>, counter: map<nat, nat>, ph: Phases, c: Key,
                    pc: Caller, p: Phase)
    requires Callers(callers, running, counter, ph) && c in ph && CallerOk(pc, running, c, p)
    ensures Callers(callers[c := pc], running, counter, ph[c := p])
  {
    hide NextOf;
    assert callers[c := pc].Keys == ph[c := p].Keys;
  }

  lemma CallersRecord(callers: map<Key, Caller>, running: map<Key, nat>, counter: map<nat, nat>, ph: Phases, c: Key,
                      fid: nat)
    requires Callers(callers, running, counter, ph) && c in ph && ph[c] == Preparing(fid)
    ensures Callers(callers[c := Recorded(fid)], running[c := fid], counter, ph)
  {
    hide NextOf;
  }

  lemma CallersForget(callers: map<Key, Caller>, running: map<Key, nat>, counter: map<nat, nat>, ph: Phases, c: Key)
    requires Callers(callers, running, counter, ph) && c in ph && callers[c].Polling?
    ensures Callers(callers, running - {c}, counter, ph)
  {
    hide NextOf;
  }

  lemma CallersAdd(callers: map<Key, Caller>, running: map<Key, nat>, counter: map<nat, nat>, ph: Phases, d: nat,
                   fid: nat)
    requires Callers(callers, running, counter, ph)
    ensures var c := Key(d, NextOf(counter, d));
      Callers(callers[c := HasJob(fid)], running, counter[d := NextOf(counter, d) + 1], ph[c := Preparing(fid)])
  {
    CounterGrows(callers, running, counter, ph, d);
    var c := Key(d, NextOf(counter, d));
    assert callers[c := HasJob(fid)].Keys == ph[c := Preparing(fid)].Keys;
  }

  lemma CallerHas(s: Sys, ph: Phases, c: Key)
    requires Inv(s, ph) && c in s.callers
    ensures c in ph && CallerOk(s.callers[c], s.runningJobs, c, ph[c])
  {
    hide Tables, Net, Services, Receipts, Routes;
  }

  /** The flag of a call and the value in its table. */
  lemma CallTables(s: Sys, ph: Phases, c: Key)
    requires Inv(s, ph) && c in ph
    ensures c in s.consumeTable && s.consumeTable[c] ==> ph[c].Flagged? || ph[c].Taken?
    ensures ph[c].Flagged? ==> c in s.returnValueTable && s.returnValueTable[c] == ph[c].value
  {
    hide Callers, Net, Services, Receipts, Routes;
  }

  lemma TablesFlag(values: map<Key, Bytes>, consume: map<Key, bool>, ph: Phases, c: Key, flag: bool)
    requires Tables(values, consume, ph) && c in ph && (flag ==> ph[c].Flagged? || ph[c].Taken?)
    ensures Tables(values, consume[c := flag], ph)
  {}

  lemma TablesStore(values: map<Key, Bytes>, consume: map<Key, bool>, ph: Phases, c: Key, v: Bytes)
    requires Tables(values, consume, ph) && c in ph && (c in consume ==> !consume[c])
    ensures Tables(values[c := v], consume, ph[c := Stored(v)])
  {}

  lemma TablesTake(values: map<Key, Bytes>, consume: map<Key, bool>, ph: Phases, c: Key, v: Bytes)
    requires Tables(values, consume, ph) && c in ph
    ensures Tables(values - {c}, consume, ph[c := Taken(v)])
  {}

  /** Away from its tables, a new or asked call changes nothing else. */
  lemma NewCall(s: Sys, ph: Phases, c: Key, p: Phase)
    requires Inv(s, ph) && c !in ph && c !in s.consumeTable && c !in s.services && p.Preparing?
    ensures Tables(s.returnValueTable, s.consumeTable, ph[c := p]) && Net(s.net + s.received, s.routes, ph[c := p])
    ensures Services(s.services, s.jobIDMap, s.argsTable, s.routes, s.counter[c.dev := s.NextId(c.dev) + 1], ph[c := p])
    ensures Receipts(s.receipts, ph[c := p]) && Routes(s.routes, ph[c := p])
  {
    NewCallNet(s.net + s.received, s.routes, ph, c, p);
    NewCallServices(s.services, s.jobIDMap, s.argsTable, s.routes, s.counter, ph, c, p);
    hide Net, Services, Callers;
  }

  lemma NewCallNet(net: set<Msg>, routes: seq<Key>, ph: Phases, c: Key, p: Phase)
    requires Net(net, routes, ph) && c !in ph
    ensures Net(net, routes, ph[c := p])
  {
    hide MsgOf, CallOfMsg;
    forall m | m in net ensures Underway(m, routes, ph[c := p]) { assert Underway(m, routes, ph); }
  }

  lemma NewCallServices(services: map<Key, Service>, jobMap: map<Key, nat>, args: map<Key, Bytes>, routes: seq<Key>,
                        counter: map<nat, nat>, ph: Phases, c: Key, p: Phase)
    requires Services(services, jobMap, args, routes, counter, ph) && c !in ph && c !in services
    ensures Services(services, jobMap, args, routes, counter[c.dev := NextOf(counter, c.dev) + 1], ph[c := p])
  {
    forall k | k in services && !services[k].Replied? ensures Placed(services[k], jobMap, args, routes, ph[c := p], k) {
      assert Placed(services[k], jobMap, args, routes, ph, k);
    }
  }

  lemma AfterGenerate(s: Sys, ph: Phases, d: nat, fid: nat)
    requires Enabled(s, GenerateJobId(d, fid))
    ensures var c := Key(d, s.NextId(d));
      After(s, GenerateJobId(d, fid))
        == s.(callers := s.callers[c := HasJob(fid)], counter := s.counter[d := s.NextId(d) + 1])
      && PhasesAfter(s, ph, GenerateJobId(d, fid)) == ph[c := Preparing(fid)]
  {}

  lemma GenerateKeeps(s: Sys, ph: Phases, d: nat, fid: nat)
    requires Inv(s, ph) && Enabled(s, GenerateJobId(d, fid))
    ensures Inv(After(s, GenerateJobId(d, fid)), PhasesAfter(s, ph, GenerateJobId(d, fid)))
  {
    NewIdFresh(s, ph, d);
    hide Callers, Tables, Net, Services, Receipts, Routes, After, PhasesAfter;
    AfterGenerate(s, ph, d, fid);
    CallersAdd(s.callers, s.runningJobs, s.counter, ph, d, fid);
    NewCall(s, ph, Key(d, s.NextId(d)), Preparing(fid));
  }

  lemma InsertRunningJobKeeps(s: Sys, ph: Phases, c: Key)
    requires Inv(s, ph) && Enabled(s, InsertRunningJob(c))
    ensures Inv(After(s, InsertRunningJob(c)), ph)
  {
    hide Callers, Tables, Net, Services, Receipts, Routes;
    CallerHas(s, ph, c);
    CallersRecord(s.callers, s.runningJobs, s.counter, ph, c, s.callers[c].fid);
  }

  lemma GetArgsTotalSizeKeeps(s: Sys, ph: Phases, c: Key, size: nat)
    requires Inv(s, ph) && Enabled(s, GetArgsTotalSize(c, size))
    ensures Inv(After(s, GetArgsTotalSize(c, size)), ph)
  {
    hide Callers, Tables, Net, Services, Receipts, Routes;
    CallerHas(s, ph, c);
    CallersStep(s.callers, s.runningJobs, s.counter, ph, c, Sized(s.callers[c].fid, size), ph[c]);
    assert ph[c := ph[c]] == ph;
  }

  lemma GetArgsOfRCKeeps(s: Sys, ph: Phases, c: Key, payload: Bytes)
    requires Inv(s, ph) && Enabled(s, GetArgsOfRC(c, payload))
    ensures Inv(After(s, GetArgsOfRC(c, payload)), ph)
  {
    hide Callers, Tables, Net, Services, Receipts, Routes;
    CallerHas(s, ph, c);
    CallersStep(s.callers, s.runningJobs, s.counter, ph, c, Collected(s.callers[c].fid, payload), ph[c]);
    assert ph[c := ph[c]] == ph;
  }

  lemma GetRunningJobFIDKeeps(s: Sys, ph: Phases, c: Key)
    requires Inv(s, ph) && Enabled(s, GetRunningJobFID(c))
    ensures Inv(After(s, GetRunningJobFID(c)), ph)
  {
    hide Callers, Tables, Net, Services, Receipts, Routes;
    CallerHas(s, ph, c);
    CallersStep(s.callers, s.runningJobs, s.counter, ph, c, LookedUp(s.runningJobs[c], s.callers[c].payload), ph[c]);
    assert ph[c := ph[c]] == ph;
  }

  lemma InsertConsumeWaitKeeps(s: Sys, ph: Phases, c: Key)
    requires Inv(s, ph) && Enabled(s, InsertConsumeWait(c))
    ensures Inv(After(s, InsertConsumeWait(c)), ph)
  {
    hide Callers, Tables, Net, Services, Receipts, Routes;
    CallerHas(s, ph, c);
    CallersStep(s.callers, s.runningJobs, s.counter, ph, c, Armed(s.callers[c].fid, s.callers[c].payload), ph[c]);
    TablesFlag(s.returnValueTable, s.consumeTable, ph, c, false);
    assert ph[c := ph[c]] == ph;
  }

  lemma CheckConsumeWaitKeeps(s: Sys, ph: Phases, c: Key)
    requires Inv(s, ph) && Enabled(s, CheckConsumeWait(c))
    ensures Inv(After(s, CheckConsumeWait(c)), ph)
  {
    hide Callers, Tables, Net, Services, Receipts, Routes;
    CallerHas(s, ph, c);
    CallTables(s, ph, c);
    if c in s.consumeTable && s.consumeTable[c] {
      CallersStep(s.callers, s.runningJobs, s.counter, ph, c, SawFlag, ph[c]);
      assert ph[c := ph[c]] == ph;
    } else {
      TablesFlag(s.returnValueTable, s.consumeTable, ph, c, false);
    }
  }

  lemma SendRequestKeeps(s: Sys, ph: Phases, c: Key)
    requires Inv(s, ph) && Enabled(s, SendRequest(c))
    ensures Inv(After(s, SendRequest(c)), PhasesAfter(s, ph, SendRequest(c)))
  {
    hide Callers, Tables, Net, Services, Receipts, Routes;
    var m := Request(c, s.callers[c].fid, s.callers[c].payload);
    var p := Asked(m.fid, m.payload);
    CallerHas(s, ph, c);
    CallTables(s, ph, c);
    CallersStep(s.callers, s.runningJobs, s.counter, ph, c, Polling, p);
    NetMoves(s.net + s.received, s.net + {m} + s.received, s.routes, ph, c, p);
    NotUnderway(s, ph, m);
    ServicesMove(s.services, s.jobIDMap, s.argsTable, s.routes, s.counter, ph, c, p);
    ReceiptsMove(s.receipts, ph, c, p);
    TablesMove(s.returnValueTable, s.consumeTable, ph, c, p);
    AskedRoutes(s.routes, ph, c, p);
  }

  lemma AskedRoutes(routes: seq<Key>, ph: Phases, c: Key, p: Phase)
    requires Routes(routes, ph) && c in ph && ph[c].Preparing?
    ensures Routes(routes, ph[c := p])
  {}

  lemma GetReturnValueKeeps(s: Sys, ph: Phases, c: Key)
    requires Inv(s, ph) && Enabled(s, GetReturnValue(c))
    ensures Inv(After(s, GetReturnValue(c)), PhasesAfter(s, ph, GetReturnValue(c)))
  {
    hide Callers, Tables, Net, Services, Receipts, Routes;
    CallerHas(s, ph, c);
    CallTables(s, ph, c);
    var p := Taken(ph[c].value);
    CallersStep(s.callers, s.runningJobs, s.counter, ph, c, Got(Some(ph[c].value)), p);
    TablesTake(s.returnValueTable, s.consumeTable, ph, c, ph[c].value);
    NetMoves(s.net + s.received, s.net + s.received, s.routes, ph, c, p);
    ServicesMove(s.services, s.jobIDMap, s.argsTable, s.routes, s.counter, ph, c, p);
    ReceiptsMove(s.receipts, ph, c, p);
    RoutesMove(s.routes, ph, c, p);
  }

  /** What is known about the call of a message under way. */
  lemma MsgFacts(s: Sys, ph: Phases, m: Msg)
    requires Inv(s, ph) && m in s.net + s.received
    ensures Underway(m, s.routes, ph) && CallOfMsg(s.routes, m).Some?
    ensures var c := CallOfMsg(s.routes, m).value; c in ph && Away(ph[c]) && MsgOf(c, ph[c]) == Some(m)
    ensures m in s.net <==> m !in s.received
  {}

  /** A message that its call's phase does not have is neither under way nor received. */
  lemma NotUnderway(s: Sys, ph: Phases, m: Msg)
    requires Inv(s, ph) && !Underway(m, s.routes, ph)
    ensures m !in s.net && m !in s.received
  {
    hide Callers, Tables, Services, Receipts, Routes, Underway;
  }

  lemma RouteAdded(net: set<Msg>, services: map<Key, Service>, jobMap: map<Key, nat>, args: map<Key, Bytes>,
                   routes: seq<Key>, counter: map<nat, nat>, ph: Phases, c: Key)
    requires Net(net, routes, ph) && Services(services, jobMap, args, routes, counter, ph)
    ensures Net(net, routes + [c], ph) && Services(services, jobMap, args, routes + [c], counter, ph)
  {
    hide NextOf, MsgOf;
    forall m | m in net ensures Underway(m, routes + [c], ph) {
      assert Underway(m, routes, ph);
    }
    forall k | k in services && !services[k].Replied? ensures Placed(services[k], jobMap, args, routes + [c], ph, k) {
      assert Placed(services[k], jobMap, args, routes, ph, k);
    }
  }

  lemma RelayKeeps(s: Sys, ph: Phases, m: Msg, dst: nat)
    requires Inv(s, ph) && Enabled(s, Relay(m, dst))
    ensures Inv(After(s, Relay(m, dst)), PhasesAfter(s, ph, Relay(m, dst)))
  {
    hide Net, Services, Routes, Callers, Tables, Receipts;
    MsgFacts(s, ph, m);
    var c, t, routes := m.call, |s.routes|, s.routes + [m.call];
    var p := OnItsWay(t, dst, m.fid, m.payload);
    AwayFacts(s, ph, c);
    assert ph[c].Asked?;
    RelayRoutes(s.routes, ph, c, p);
    RouteAdded(s.net + s.received, s.services, s.jobIDMap, s.argsTable, s.routes, s.counter, ph, c);
    NetMoves(s.net + s.received, s.net - {m} + {Forwarded(dst, t, m.fid, m.payload)} + s.received, routes, ph, c, p);
    NotUnderway(s, ph, Forwarded(dst, t, m.fid, m.payload));
    ServicesMove(s.services, s.jobIDMap, s.argsTable, routes, s.counter, ph, c, p);
    ReceiptsMove(s.receipts, ph, c, p);
    CallersMove(s.callers, s.runningJobs, s.counter, ph, c, p);
    TablesMove(s.returnValueTable, s.consumeTable, ph, c, p);
  }

  lemma RelayRoutes(routes: seq<Key>, ph: Phases, c: Key, p: Phase)
    requires Routes(routes, ph) && c in ph && ph[c].Asked? && p.OnItsWay? && p.ticket == |routes|
    ensures Routes(routes + [c], ph[c := p])
  {
    var r := routes + [c];
    forall t | 0 <= t < |r|
      ensures r[t] in ph[c := p] && !ph[c := p][r[t]].Preparing? && !ph[c := p][r[t]].Asked?
        && (Ticketed(ph[c := p][r[t]]) ==> ph[c := p][r[t]].ticket == t)
    {
      if t < |routes| { assert r[t] == routes[t]; }
    }
  }

  lemma RelayReplyKeeps(s: Sys, ph: Phases, m: Msg)
    requires Inv(s, ph) && Enabled(s, RelayReply(m))
    ensures Inv(After(s, RelayReply(m)), PhasesAfter(s, ph, RelayReply(m)))
  {
    hide Net, Services, Routes, Callers, Tables, Receipts;
    MsgFacts(s, ph, m);
    var c := s.routes[m.ticket];
    var p := Back(m.value);
    AwayFacts(s, ph, c);
    assert ph[c].Answered?;
    NetMoves(s.net + s.received, s.net - {m} + {Returned(c, m.value)} + s.received, s.routes, ph, c, p);
    NotUnderway(s, ph, Returned(c, m.value));
    ServicesMove(s.services, s.jobIDMap, s.argsTable, s.routes, s.counter, ph, c, p);
    ReceiptsMove(s.receipts, ph, c, p);
    CallersMove(s.callers, s.runningJobs, s.counter, ph, c, p);
    TablesMove(s.returnValueTable, s.consumeTable, ph, c, p);
    RoutesMove(s.routes, ph, c, p);
  }

  lemma ReceiptsAdd(receipts: map<Key, Receipt>, ph: Phases, c: Key, v: Bytes)
    requires Receipts(receipts, ph) && c in ph && !ph[c].Landed? && !ph[c].Stored?
    ensures Receipts(receipts[c := Storing(v)], ph[c := Landed(v)])
  {}

  lemma ReceiveReturnKeeps(s: Sys, ph: Phases, m: Msg)
    requires Inv(s, ph) && Enabled(s, ReceiveReturn(m))
    ensures Inv(After(s, ReceiveReturn(m)), PhasesAfter(s, ph, ReceiveReturn(m)))
  {
    hide Net, Services, Routes, Callers, Tables, Receipts;
    MsgFacts(s, ph, m);
    var c, p := m.call, Landed(m.value);
    AwayFacts(s, ph, c);
    assert ph[c].Back?;
    ReceiptsAdd(s.receipts, ph, c, m.value);
    NetMoves(s.net + s.received, s.net - {m} + s.received, s.routes, ph, c, p);
    ServicesMove(s.services, s.jobIDMap, s.argsTable, s.routes, s.counter, ph, c, p);
    CallersMove(s.callers, s.runningJobs, s.counter, ph, c, p);
    TablesMove(s.returnValueTable, s.consumeTable, ph, c, p);
    RoutesMove(s.routes, ph, c, p);
  }

  // ----- the callee

  /** What is known about the call of a service that has not replied. */
  lemma ServiceFacts(s: Sys, ph: Phases, k: Key)
    requires Inv(s, ph) && k in s.services && !s.services[k].Replied?
    ensures Placed(s.services[k], s.jobIDMap, s.argsTable, s.routes, ph, k) && k !in ph
    ensures var t := TicketOf(s.services[k], s.jobIDMap, k).value;
      var c := s.routes[t];
      c == CallOf(s, k) && Away(ph[c]) && (ph[c].Serving? || ph[c].Computed?) && ph[c].ticket == t && ph[c].at == k
  {}

  /** A service's own step that does not move its call. */
  lemma ServicesStep(services: map<Key, Service>, jobMap: map<Key, nat>, args: map<Key, Bytes>, routes: seq<Key>,
                     counter: map<nat, nat>, ph: Phases, k: Key, sv: Service,
                     jobMap': map<Key, nat>, args': map<Key, Bytes>)
    requires Services(services, jobMap, args, routes, counter, ph) && k in services
    requires sv.Replied? || Placed(sv, jobMap', args', routes, ph, k)
    requires forall x | x != k :: (x in jobMap' <==> x in jobMap) && (x in jobMap ==> jobMap'[x] == jobMap[x])
    requires forall x | x != k :: (x in args' <==> x in args) && (x in args ==> args'[x] == args[x])
    ensures Services(services[k := sv], jobMap', args', routes, counter, ph)
  {
    hide NextOf;
    forall x | x in services && x != k && !services[x].Replied?
      ensures Placed(services[x], jobMap', args', routes, ph, x)
    {
      assert Placed(services[x], jobMap, args, routes, ph, x);
    }
  }

  lemma ReceiveCallKeeps(s: Sys, ph: Phases, m: Msg)
    requires Inv(s, ph) && Enabled(s, ReceiveCall(m))
    ensures Inv(After(s, ReceiveCall(m)), ph)
  {
    hide Net, Services, Routes, Callers, Tables, Receipts;
    assert s.net - {m} + (s.received + {m}) == s.net + s.received;
  }

  lemma GetJobIDKeeps(s: Sys, ph: Phases, m: Msg)
    requires Inv(s, ph) && Enabled(s, GetJobID(m))
    ensures Inv(After(s, GetJobID(m)), PhasesAfter(s, ph, GetJobID(m)))
  {
    hide Net, Services, Routes, Callers, Tables, Receipts;
    MsgFacts(s, ph, m);
    NewIdFresh(s, ph, m.dst);
    var c, k := s.routes[m.ticket], Key(m.dst, s.NextId(m.dst));
    var p := Serving(m.ticket, k, m.fid, m.payload);
    AwayFacts(s, ph, c);
    assert ph[c].OnItsWay?;
    CounterGrows(s.callers, s.runningJobs, s.counter, ph, m.dst);
    ServiceAdded(s.services, s.jobIDMap, s.argsTable, s.routes, s.counter, ph, m, k);
    NetMoves(s.net + s.received, s.net + (s.received - {m}), s.routes, ph, c, p);
    ReceiptsMove(s.receipts, ph, c, p);
    CallersMove(s.callers, s.runningJobs, s.counter[m.dst := s.NextId(m.dst) + 1], ph, c, p);
    TablesMove(s.returnValueTable, s.consumeTable, ph, c, p);
    RoutesMove(s.routes, ph, c, p);
  }

  lemma CounterGrows(callers: map<Key, Caller>, running: map<Key, nat>, counter: map<nat, nat>, ph: Phases, d: nat)
    requires Callers(callers, running, counter, ph)
    ensures Callers(callers, running, counter[d := NextOf(counter, d) + 1], ph)
  {}

  lemma ServiceAdded(services: map<Key, Service>, jobMap: map<Key, nat>, args: map<Key, Bytes>, routes: seq<Key>,
                     counter: map<nat, nat>, ph: Phases, m: Msg, k: Key)
    requires Services(services, jobMap, args, routes, counter, ph) && k !in ph && k !in services
    requires m.Forwarded? && m.ticket < |routes| && routes[m.ticket] in ph && ph[routes[m.ticket]].OnItsWay?
    requires k == Key(m.dst, NextOf(counter, m.dst))
    ensures Services(services[k := HasId(m.ticket, m.fid, m.payload)], jobMap, args, routes, counter[m.dst := k.id + 1],
                     ph[routes[m.ticket] := Serving(m.ticket, k, m.fid, m.payload)])
  {
    var c, p := routes[m.ticket], Serving(m.ticket, k, m.fid, m.payload);
    ServicesMove(services, jobMap, args, routes, counter, ph, c, p);
    assert Placed(HasId(m.ticket, m.fid, m.payload), jobMap, args, routes, ph[c := p], k);
  }

  lemma InsertJobIDMappingKeeps(s: Sys, ph: Phases, k: Key)
    requires Inv(s, ph) && Enabled(s, InsertJobIDMapping(k))
    ensures Inv(After(s, InsertJobIDMapping(k)), ph)
  {
    hide Net, Services, Routes, Callers, Tables, Receipts;
    ServiceFacts(s, ph, k);
    var sv := s.services[k];
    ServicesStep(s.services, s.jobIDMap, s.argsTable, s.routes, s.counter, ph, k, Mapped(sv.fid, sv.payload),
                 s.jobIDMap[k := sv.ticket], s.argsTable);
  }

  lemma InsertArgsKeeps(s: Sys, ph: Phases, k: Key)
    requires Inv(s, ph) && Enabled(s, InsertArgs(k))
    ensures Inv(After(s, InsertArgs(k)), ph)
  {
    hide Net, Services, Routes, Callers, Tables, Receipts;
    ServiceFacts(s, ph, k);
    var sv := s.services[k];
    ServicesStep(s.services, s.jobIDMap, s.argsTable, s.routes, s.counter, ph, k, Ready(sv.fid),
                 s.jobIDMap, s.argsTable[k := sv.payload]);
  }

  lemma ConsumeArgsKeeps(s: Sys, ph: Phases, k: Key)
    requires Inv(s, ph) && Enabled(s, ConsumeArgs(k))
    ensures Inv(After(s, ConsumeArgs(k)), ph)
  {
    hide Net, Services, Routes, Callers, Tables, Receipts;
    ServiceFacts(s, ph, k);
    var sv := s.services[k];
    ServicesStep(s.services, s.jobIDMap, s.argsTable, s.routes, s.counter, ph, k, Executing(sv.fid, s.argsTable[k]),
                 s.jobIDMap, s.argsTable - {k});
  }

  /** No other service works for a call. */
  lemma OthersElsewhere(services: map<Key, Service>, jobMap: map<Key, nat>, args: map<Key, Bytes>, routes: seq<Key>,
                        counter: map<nat, nat>, ph: Phases, c: Key, p: Phase, k: Key, sv: Service)
    requires Services(services, jobMap, args, routes, counter, ph) && c in ph && k in services
    requires (ph[c].Serving? || ph[c].Computed?) && ph[c].at == k
    requires sv.Replied? || Placed(sv, jobMap, args, routes, ph[c := p], k)
    ensures Services(services[k := sv], jobMap, args, routes, counter, ph[c := p])
  {
    hide NextOf;
    forall x | x in services && x != k && !services[x].Replied?
      ensures Placed(services[x], jobMap, args, routes, ph[c := p], x)
    {
      assert Placed(services[x], jobMap, args, routes, ph, x);
    }
  }

  lemma FinishKeeps(s: Sys, ph: Phases, k: Key, value: Bytes)
    requires Inv(s, ph) && Enabled(s, Finish(k, value))
    ensures k in s.jobIDMap && Inv(After(s, Finish(k, value)), PhasesAfter(s, ph, Finish(k, value)))
  {
    hide Net, Services, Routes, Callers, Tables, Receipts;
    ServiceFacts(s, ph, k);
    var t := s.jobIDMap[k];
    var c, p := s.routes[t], Computed(t, k, value);
    AwayFacts(s, ph, c);
    NetMoves(s.net + s.received, s.net + s.received, s.routes, ph, c, p);
    ReceiptsMove(s.receipts, ph, c, p);
    CallersMove(s.callers, s.runningJobs, s.counter, ph, c, p);
    TablesMove(s.returnValueTable, s.consumeTable, ph, c, p);
    RoutesMove(s.routes, ph, c, p);
    OthersElsewhere(s.services, s.jobIDMap, s.argsTable, s.routes, s.counter, ph, c, p, k, Finished(value));
  }

  lemma GetSourceJobIDKeeps(s: Sys, ph: Phases, k: Key)
    requires Inv(s, ph) && Enabled(s, GetSourceJobID(k))
    ensures Inv(After(s, GetSourceJobID(k)), ph)
  {
    hide Net, Services, Routes, Callers, Tables, Receipts;
    ServiceFacts(s, ph, k);
    ServicesStep(s.services, s.jobIDMap, s.argsTable, s.routes, s.counter, ph, k,
      Addressed(s.jobIDMap[k], s.services[k].value),
                 s.jobIDMap, s.argsTable);
  }

  lemma SendReplyKeeps(s: Sys, ph: Phases, k: Key)
    requires Inv(s, ph) && Enabled(s, SendReply(k))
    ensures Inv(After(s, SendReply(k)), PhasesAfter(s, ph, SendReply(k)))
  {
    hide Net, Services, Routes, Callers, Tables, Receipts;
    ServiceFacts(s, ph, k);
    var t, v := s.services[k].ticket, s.services[k].value;
    var c, p := s.routes[t], Answered(t, v);
    AwayFacts(s, ph, c);
    NetMoves(s.net + s.received, s.net + {Reply(t, v)} + s.received, s.routes, ph, c, p);
    NotUnderway(s, ph, Reply(t, v));
    ReceiptsMove(s.receipts, ph, c, p);
    CallersMove(s.callers, s.runningJobs, s.counter, ph, c, p);
    TablesMove(s.returnValueTable, s.consumeTable, ph, c, p);
    RoutesMove(s.routes, ph, c, p);
    OthersElsewhere(s.services, s.jobIDMap, s.argsTable, s.routes, s.counter, ph, c, p, k, Replied);
  }

  lemma DeleteJobIDMappingKeeps(s: Sys, ph: Phases, k: Key)
    requires Inv(s, ph) && Enabled(s, DeleteJobIDMapping(k))
    ensures Inv(After(s, DeleteJobIDMapping(k)), ph)
  {
    hide Net, Routes, Callers, Tables, Receipts, NextOf;
    var services, jobMap := s.services - {k}, s.jobIDMap - {k};
    forall x | x in services && !services[x].Replied?
      ensures Placed(services[x], jobMap, s.argsTable, s.routes, ph, x)
    {
      assert Placed(s.services[x], s.jobIDMap, s.argsTable, s.routes, ph, x);
    }
  }

  // ----- the return handler

  lemma ReceiptFacts(s: Sys, ph: Phases, c: Key)
    requires Inv(s, ph) && c in s.receipts
    ensures c in ph && c in s.callers && s.callers[c].Polling? && (c in s.consumeTable ==> !s.consumeTable[c])
    ensures if s.receipts[c].Storing? then ph[c] == Landed(s.receipts[c].value)
            else ph[c].Stored? && c in s.returnValueTable && s.returnValueTable[c] == ph[c].value
  {}

  lemma ReceiptsStep(receipts: map<Key, Receipt>, ph: Phases, c: Key, p: Phase)
    requires Receipts(receipts, ph) && c in ph
    ensures Receipts(receipts - {c}, ph[c := p])
    ensures p.Stored? ==> Receipts(receipts[c := Deleting], ph[c := p]) && Receipts(receipts[c := Flagging], ph[c := p])
  {}

  lemma InsertReturnValueKeeps(s: Sys, ph: Phases, c: Key)
    requires Inv(s, ph) && Enabled(s, InsertReturnValue(c))
    ensures Inv(After(s, InsertReturnValue(c)), PhasesAfter(s, ph, InsertReturnValue(c)))
  {
    hide Net, Services, Routes, Callers, Tables, Receipts;
    ReceiptFacts(s, ph, c);
    var v := s.receipts[c].value;
    var p := Stored(v);
    TablesStore(s.returnValueTable, s.consumeTable, ph, c, v);
    ReceiptsStep(s.receipts, ph, c, p);
    NetMoves(s.net + s.received, s.net + s.received, s.routes, ph, c, p);
    ServicesMove(s.services, s.jobIDMap, s.argsTable, s.routes, s.counter, ph, c, p);
    CallersMove(s.callers, s.runningJobs, s.counter, ph, c, p);
    RoutesMove(s.routes, ph, c, p);
  }

  lemma DeleteRunningJobKeeps(s: Sys, ph: Phases, c: Key)
    requires Inv(s, ph) && Enabled(s, DeleteRunningJob(c))
    ensures Inv(After(s, DeleteRunningJob(c)), ph)
  {
    hide Net, Services, Routes, Callers, Tables, Receipts;
    ReceiptFacts(s, ph, c);
    ReceiptsStep(s.receipts, ph, c, ph[c]);
    CallersForget(s.callers, s.runningJobs, s.counter, ph, c);
    assert ph[c := ph[c]] == ph;
  }

  lemma OnValueReturnKeeps(s: Sys, ph: Phases, c: Key)
    requires Inv(s, ph) && Enabled(s, OnValueReturn(c))
    ensures Inv(After(s, OnValueReturn(c)), PhasesAfter(s, ph, OnValueReturn(c)))
  {
    hide Net, Services, Routes, Callers, Tables, Receipts;
    ReceiptFacts(s, ph, c);
    var p := Flagged(ph[c].value);
    ReceiptsStep(s.receipts, ph, c, p);
    TablesMove(s.returnValueTable, s.consumeTable, ph, c, p);
    TablesFlag(s.returnValueTable, s.consumeTable, ph[c := p], c, true);
    NetMoves(s.net + s.received, s.net + s.received, s.routes, ph, c, p);
    ServicesMove(s.services, s.jobIDMap, s.argsTable, s.routes, s.counter, ph, c, p);
    CallersMove(s.callers, s.runningJobs, s.counter, ph, c, p);
    RoutesMove(s.routes, ph, c, p);
  }

  /** Every step keeps the invariant. */
  lemma StepKeeps(s: Sys, ph: Phases, ev: Event)
    requires Inv(s, ph) && Enabled(s, ev)
    ensures Inv(After(s, ev), PhasesAfter(s, ph, ev))
  {
    hide Inv, After;
    match ev
    case GenerateJobId(d, fid) => GenerateKeeps(s, ph, d, fid);
    case InsertRunningJob(c) => InsertRunningJobKeeps(s, ph, c);
    case GetArgsTotalSize(c, size) => GetArgsTotalSizeKeeps(s, ph, c, size);
    case GetArgsOfRC(c, payload) => GetArgsOfRCKeeps(s, ph, c, payload);
    case GetRunningJobFID(c) => GetRunningJobFIDKeeps(s, ph, c);
    case InsertConsumeWait(c) => InsertConsumeWaitKeeps(s, ph, c);
    case SendRequest(c) => SendRequestKeeps(s, ph, c);
    case CheckConsumeWait(c) => CheckConsumeWaitKeeps(s, ph, c);
    case GetReturnValue(c) => GetReturnValueKeeps(s, ph, c);
    case Relay(m, dst) => RelayKeeps(s, ph, m, dst);
    case RelayReply(m) => RelayReplyKeeps(s, ph, m);
    case ReceiveCall(m) => ReceiveCallKeeps(s, ph, m);
    case GetJobID(m) => GetJobIDKeeps(s, ph, m);
    case InsertJobIDMapping(k) => InsertJobIDMappingKeeps(s, ph, k);
    case InsertArgs(k) => InsertArgsKeeps(s, ph, k);
    case ConsumeArgs(k) => ConsumeArgsKeeps(s, ph, k);
    case Finish(k, value) => FinishKeeps(s, ph, k, value);
    case GetSourceJobID(k) => GetSourceJobIDKeeps(s, ph, k);
    case SendReply(k) => SendReplyKeeps(s, ph, k);
    case DeleteJobIDMapping(k) => DeleteJobIDMappingKeeps(s, ph, k);
    case ReceiveReturn(m) => ReceiveReturnKeeps(s, ph, m);
    case InsertReturnValue(c) => InsertReturnValueKeeps(s, ph, c);
    case DeleteRunningJob(c) => DeleteRunningJobKeeps(s, ph, c);
    case OnValueReturn(c) => OnValueReturnKeeps(s, ph, c);
  }
}
