/** Whole runs of remote calls: every value a caller gets is the one its callee computed for it. */
module RemoteCallRuns {
  import opened RemoteCalls
  import opened RemoteCallSteps

  ghost predicate Started(s: Sys)
  {
    && s.counter == map[] && s.callers == map[] && s.services == map[] && s.receipts == map[]
    && s.runningJobs == map[] && s.consumeTable == map[] && s.returnValueTable == map[]
    && s.jobIDMap == map[] && s.argsTable == map[] && s.routes == [] && s.net == {} && s.received == {}
  }

  ghost predicate IsRun(run: seq<Sys>, evs: seq<Event>)
  {
    && |run| == |evs| + 1 && Started(run[0])
    && forall i | 0 <= i < |evs| :: Enabled(run[i], evs[i]) && run[i + 1] == After(run[i], evs[i])
  }

  ghost function PhasesAt(run: seq<Sys>, evs: seq<Event>, j: nat): Phases
    requires IsRun(run, evs) && j <= |evs|
  {
    if j == 0 then map[] else PhasesAfter(run[j - 1], PhasesAt(run, evs, j - 1), evs[j - 1])
  }

  lemma {:induction false} RunInv(run: seq<Sys>, evs: seq<Event>, j: nat)
    requires IsRun(run, evs) && j <= |evs|
    ensures Inv(run[j], PhasesAt(run, evs, j))
  {
    hide Enabled, After, PhasesAfter;
    if j == 0 {
      hide Inv;
      StartInv(run[0]);
    } else {
      hide Inv;
      RunInv(run, evs, j - 1);
      StepKeeps(run[j - 1], PhasesAt(run, evs, j - 1), evs[j - 1]);
      assert run[j] == After(run[j - 1], evs[j - 1]);
    }
  }

  lemma StartInv(s: Sys)
    requires Started(s)
    ensures Inv(s, map[])
  {}

  // ----- consumeReturn

  /** The polling loop can be left only when the value is in the table, and it is still there when
      it is read. */
  lemma LeavesWithValue(run: seq<Sys>, evs: seq<Event>, j: nat, c: Key)
    requires IsRun(run, evs) && j <= |evs| && c in run[j].callers
    ensures run[j].callers[c].Polling? && c in run[j].consumeTable && run[j].consumeTable[c]
      ==> c in run[j].returnValueTable
    ensures run[j].callers[c].SawFlag? ==> c in run[j].returnValueTable
  {
    hide Inv, PhasesAt, Enabled, After;
    RunInv(run, evs, j);
    CallerHas(run[j], PhasesAt(run, evs, j), c);
    CallTables(run[j], PhasesAt(run, evs, j), c);
  }

  /** A call has at most one message, which is either under way or received. */
  lemma OneMessage(run: seq<Sys>, evs: seq<Event>, j: nat, m: Msg, n: Msg)
    requires IsRun(run, evs) && j <= |evs| && m in run[j].net + run[j].received && n in run[j].net + run[j].received
    requires CallOfMsg(run[j].routes, m) == CallOfMsg(run[j].routes, n)
    ensures m == n && (m in run[j].net <==> m !in run[j].received)
  {
    hide Inv, PhasesAt, Enabled, After;
    RunInv(run, evs, j);
    MsgFacts(run[j], PhasesAt(run, evs, j), m);
    MsgFacts(run[j], PhasesAt(run, evs, j), n);
  }

  // ----- ids

  /** The device on which an event takes an id, for the program's own call or for an incoming one. */
  function TakesId(ev: Event): Option<nat>
  {
    match ev
    case GenerateJobId(d, _) => Some(d)
    case GetJobID(m) => if m.Forwarded? then Some(m.dst) else None
    case _ => None
  }

  lemma CounterStep(s: Sys, ev: Event, d: nat)
    requires Enabled(s, ev)
    ensures After(s, ev).NextId(d) == s.NextId(d) + if TakesId(ev) == Some(d) then 1 else 0
  {}

  lemma {:induction false} CounterRises(run: seq<Sys>, evs: seq<Event>, i: nat, j: nat, d: nat)
    requires IsRun(run, evs) && i <= j <= |evs|
    ensures run[i].NextId(d) <= run[j].NextId(d) <= MAX_ID
    decreases j
  {
    hide After, Enabled, TakesId;
    if j == 0 {
      assert run[0].counter == map[];
    } else {
      CounterRises(run, evs, if i < j then i else i - 1, j - 1, d);
      CounterStep(run[j - 1], evs[j - 1], d);
      if TakesId(evs[j - 1]) == Some(d) { CounterBound(run[j - 1], evs[j - 1], d); }
      assert run[j] == After(run[j - 1], evs[j - 1]);
    }
  }

  lemma CounterBound(s: Sys, ev: Event, d: nat)
    requires Enabled(s, ev) && TakesId(ev) == Some(d)
    ensures s.NextId(d) < MAX_ID
  {}

  /** No two ids of one device are ever the same, whether taken for its own calls or given to
      incoming ones; none reaches the special negative values. */
  lemma IdsDistinct(run: seq<Sys>, evs: seq<Event>, i: nat, j: nat, d: nat)
    requires IsRun(run, evs) && i < j < |evs| && TakesId(evs[i]) == TakesId(evs[j]) == Some(d)
    ensures run[i].NextId(d) < run[j].NextId(d) < MAX_ID
  {
    hide After, Enabled, TakesId;
    CounterStep(run[i], evs[i], d);
    assert run[i + 1] == After(run[i], evs[i]);
    CounterRises(run, evs, i + 1, j, d);
    CounterBound(run[j], evs[j], d);
  }

  // ----- answers

  /** Event i is the end of the function executed for call c, with its value. */
  ghost predicate IsAnswer(run: seq<Sys>, evs: seq<Event>, i: nat, c: Key)
    requires i < |evs| && |run| == |evs| + 1
  {
    evs[i].Finish? && CallOf(run[i], evs[i].k) == c
  }

  /** The function id and arguments the program of call c sent in event h. */
  ghost predicate IsQuestion(run: seq<Sys>, evs: seq<Event>, h: nat, c: Key, fid: nat, payload: Bytes)
    requires h < |evs| && |run| == |evs| + 1
  {
    evs[h] == SendRequest(c) && c in run[h].callers && run[h].callers[c] == Armed(fid, payload)
  }

  /** The function and arguments in a call's phase, before its value is computed. */
  predicate Carries(p: Phase, fid: nat, payload: Bytes)
  {
    (p.Asked? || p.OnItsWay? || p.Serving?) && p.fid == fid && p.payload == payload
  }

  /** One step's effect on whether a call has a value, and which. */
  ghost predicate ValueStep(s: Sys, ph: Phases, ev: Event, c: Key)
    requires Enabled(s, ev)
  {
    var ph' := PhasesAfter(s, ph, ev);
    if ev.Finish? && CallOf(s, ev.k) == c then
      c in ph && ph[c].Serving? && c in ph' && HasValue(ph'[c]) && ph'[c].value == ev.value
    else SameValue(ph, ph', c)
  }

  ghost predicate SameValue(ph: Phases, ph': Phases, c: Key)
  {
    && (c in ph' && HasValue(ph'[c]) <==> c in ph && HasValue(ph[c]))
    && (c in ph && HasValue(ph[c]) ==> ph'[c].value == ph[c].value)
  }

  /** The call a step moves keeps its value unless it gets its first one. */
  lemma MoveKeepsValue(ph: Phases, x: Key, p: Phase, c: Key)
    requires x in ph || !HasValue(p)
    requires x in ph ==> (HasValue(p) <==> HasValue(ph[x])) && (HasValue(p) ==> p.value == ph[x].value)
    ensures SameValue(ph, Moved(ph, x, p), c)
  {}

  lemma ServiceSteps(s: Sys, ph: Phases, ev: Event, c: Key)
    requires Inv(s, ph) && Enabled(s, ev) && (ev.Finish? || ev.SendReply?)
    ensures ValueStep(s, ph, ev, c)
  {
    hide Inv;
    match ev
    case Finish(k, _) => ServiceFacts(s, ph, k);
    case SendReply(k) => ServiceFacts(s, ph, k); ServiceValue(s, ph, k);
  }

  lemma MessageSteps(s: Sys, ph: Phases, ev: Event, c: Key)
    requires Inv(s, ph) && Enabled(s, ev) && (ev.Relay? || ev.RelayReply? || ev.GetJobID? || ev.ReceiveReturn?)
    ensures ValueStep(s, ph, ev, c)
  {
    hide Inv, SameValue;
    MsgFacts(s, ph, ev.m);
    match ev
    case Relay(m, dst) => MoveKeepsValue(ph, m.call, OnItsWay(|s.routes|, dst, m.fid, m.payload), c);
    case RelayReply(m) => MoveKeepsValue(ph, s.routes[m.ticket], Back(m.value), c);
    case GetJobID(m) =>
      MoveKeepsValue(ph, s.routes[m.ticket], Serving(m.ticket, Key(m.dst, s.NextId(m.dst)), m.fid, m.payload), c);
    case ReceiveReturn(m) => MoveKeepsValue(ph, m.call, Landed(m.value), c);
  }

  lemma CallerSteps(s: Sys, ph: Phases, ev: Event, c: Key)
    requires Inv(s, ph) && Enabled(s, ev)
    requires ev.GenerateJobId? || ev.SendRequest? || ev.GetReturnValue? || ev.InsertReturnValue? || ev.OnValueReturn?
    ensures ValueStep(s, ph, ev, c)
  {
    hide Inv, SameValue;
    match ev
    case GenerateJobId(d, fid) =>
      NewIdFresh(s, ph, d);
      MoveKeepsValue(ph, Key(d, s.NextId(d)), Preparing(fid), c);
    case SendRequest(x) =>
      CallerHas(s, ph, x);
      MoveKeepsValue(ph, x, Asked(s.callers[x].fid, s.callers[x].payload), c);
    case GetReturnValue(x) =>
      CallerHas(s, ph, x);
      MoveKeepsValue(ph, x, Taken(ph[x].value), c);
    case InsertReturnValue(x) =>
      ReceiptFacts(s, ph, x);
      MoveKeepsValue(ph, x, Stored(s.receipts[x].value), c);
    case OnValueReturn(x) =>
      ReceiptFacts(s, ph, x);
      MoveKeepsValue(ph, x, Flagged(ph[x].value), c);
  }

  /** A step gives a call a value exactly when a function executed for it ends, and then this one. */
  lemma PhaseStep(s: Sys, ph: Phases, ev: Event, c: Key)
    requires Inv(s, ph) && Enabled(s, ev)
    ensures ValueStep(s, ph, ev, c)
  {
    hide Inv, Enabled;
    if ev.Finish? || ev.SendReply? {
      ServiceSteps(s, ph, ev, c);
    } else if ev.Relay? || ev.RelayReply? || ev.GetJobID? || ev.ReceiveReturn? {
      MessageSteps(s, ph, ev, c);
    } else if ev.GenerateJobId? || ev.SendRequest? || ev.GetReturnValue? || ev.InsertReturnValue? || ev.OnValueReturn? {
      CallerSteps(s, ph, ev, c);
    }
  }

  lemma ServiceValue(s: Sys, ph: Phases, k: Key)
    requires Inv(s, ph) && k in s.services && s.services[k].Addressed?
    ensures Placed(s.services[k], s.jobIDMap, s.argsTable, s.routes, ph, k)
    ensures var c := s.routes[s.services[k].ticket]; ph[c].Computed? && ph[c].value == s.services[k].value
  {}

  lemma CarriesStep(s: Sys, ph: Phases, ev: Event, c: Key, fid: nat, payload: Bytes)
    requires Inv(s, ph) && Enabled(s, ev) && c in PhasesAfter(s, ph, ev)
    requires Carries(PhasesAfter(s, ph, ev)[c], fid, payload)
    ensures (c in ph && Carries(ph[c], fid, payload)) ||
            (ev == SendRequest(c) && c in s.callers && s.callers[c] == Armed(fid, payload))
  {
    hide Inv;
    match ev
    case Relay(m, _) => MsgFacts(s, ph, m);
    case GetJobID(m) => MsgFacts(s, ph, m);
    case _ =>
  }

  /** A carried request was sent by its program. */
  lemma {:induction false} CarriedWasAsked(run: seq<Sys>, evs: seq<Event>, j: nat, c: Key, fid: nat, payload: Bytes)
    requires IsRun(run, evs) && j <= |evs| && c in PhasesAt(run, evs, j)
    requires Carries(PhasesAt(run, evs, j)[c], fid, payload)
    ensures exists h :: 0 <= h < j && IsQuestion(run, evs, h, c, fid, payload)
  {
    hide Inv, Enabled, After, PhasesAfter, Carries;
    RunInv(run, evs, j - 1);
    CarriesStep(run[j - 1], PhasesAt(run, evs, j - 1), evs[j - 1], c, fid, payload);
    if IsQuestion(run, evs, j - 1, c, fid, payload) {
    } else {
      CarriedWasAsked(run, evs, j - 1, c, fid, payload);
    }
  }

  /** A call with a value has exactly one answer behind it, with this value; one without has none. */
  lemma {:induction false} ValuesAreAnswers(run: seq<Sys>, evs: seq<Event>, j: nat, c: Key)
    requires IsRun(run, evs) && j <= |evs|
    ensures var ph := PhasesAt(run, evs, j);
      if c in ph && HasValue(ph[c]) then
        exists i :: 0 <= i < j && IsAnswer(run, evs, i, c) && evs[i].value == ph[c].value
          && forall k | 0 <= k < j && IsAnswer(run, evs, k, c) :: k == i
      else forall k | 0 <= k < j :: !IsAnswer(run, evs, k, c)
  {
    hide Inv, Enabled, After, PhasesAfter, HasValue, CallOf;
    if j > 0 {
      var ph := PhasesAt(run, evs, j - 1);
      RunInv(run, evs, j - 1);
      ValuesAreAnswers(run, evs, j - 1, c);
      PhaseStep(run[j - 1], ph, evs[j - 1], c);
      if IsAnswer(run, evs, j - 1, c) {
        ServingHasNoValue(ph[c]);
      }
    }
  }

  lemma ServingHasNoValue(p: Phase)
    ensures p.Serving? ==> !HasValue(p)
  {}

  /** What consumeReturn returns: the value of the one execution of a function for this call, whose
      function id and arguments are those its program sent. */
  lemma ReturnsTheAnswer(run: seq<Sys>, evs: seq<Event>, j: nat, c: Key)
    requires IsRun(run, evs) && j <= |evs| && c in run[j].callers && run[j].callers[c].Got?
    ensures exists i :: 0 <= i < j && IsAnswer(run, evs, i, c) && run[j].callers[c].value == Some(evs[i].value)
              && (forall k | 0 <= k < j && IsAnswer(run, evs, k, c) :: k == i)
  {
    hide Inv, Enabled, After, PhasesAt, IsAnswer;
    RunInv(run, evs, j);
    CallerHas(run[j], PhasesAt(run, evs, j), c);
    ValuesAreAnswers(run, evs, j, c);
  }

  /** An execution for a call runs the function the program named on the arguments it sent. */
  lemma AnswersTheQuestion(run: seq<Sys>, evs: seq<Event>, i: nat, c: Key)
    requires IsRun(run, evs) && i < |evs| && IsAnswer(run, evs, i, c)
    ensures evs[i].k in run[i].services && run[i].services[evs[i].k].Executing?
    ensures var sv := run[i].services[evs[i].k];
      exists h :: 0 <= h < i && IsQuestion(run, evs, h, c, sv.fid, sv.payload)
  {
    hide Inv, After, PhasesAt;
    RunInv(run, evs, i);
    var k := evs[i].k;
    assert Enabled(run[i], evs[i]);
    ServiceFacts(run[i], PhasesAt(run, evs, i), k);
    CarriedWasAsked(run, evs, i, c, run[i].services[k].fid, run[i].services[k].payload);
  }
}
