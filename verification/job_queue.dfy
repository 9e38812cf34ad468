/** The job ring between the receiver, which alone inserts, and the handler, which alone takes out.
    Every single read and write of a slot or an index is a step of its own, so that the steps of the
    two threads interleave in all ways. */
module JobQueues {
  type Job = nat

  datatype Slot = Null | Full(job: Job)

  /** Where the inserting thread is in insertJob. */
  datatype Inserter = Away | SawNull(job: Job) | Stored(job: Job)

  /** Where the taking thread is in getJob. */
  datatype Getter = Outside | SawJob | Loaded(job: Job) | Cleared(job: Job)

  datatype Ring = Ring(data: seq<Slot>, head: nat, tail: nat, ins: Inserter, get: Getter) {
    predicate Shaped() { |data| > 0 && head < |data| && tail < |data| }

    /** The index after i; the last one is followed by the first. */
    function Next(i: nat): nat { if i == |data| - 1 then 0 else i + 1 }

    /** The slot i places after a given one. */
    function Place(from: nat, i: nat): nat { if from + i < |data| then from + i else from + i - |data| }

    /** The first slot not cleared yet, and the first not stored yet. */
    function Front(): nat { if get.Cleared? then Next(head) else head }

    function Back(): nat { if ins.Stored? then Next(tail) else tail }

    /** The ring holds exactly the queue, from the front slot on, and the rest is null. */
    ghost predicate Represents(q: seq<Job>)
    {
      && Shaped() && |q| <= |data| && Back() == Place(Front(), |q|)
      && (forall i | 0 <= i < |data| :: data[Place(Front(), i)] == if i < |q| then Full(q[i]) else Null)
      && (ins.SawNull? ==> |q| < |data|)
      && (get.SawJob? ==> |q| > 0)
      && (get.Loaded? ==> |q| > 0 && q[0] == get.job)
    }
  }

  datatype Event =
    | ReadTail(job: Job)   // insertJob: is the slot at tail null?
    | WriteTail            // data[tail] = job
    | MoveTail             // and the insertion returns true
    | ReadHead             // getJob: is the slot at head null?
    | LoadHead             // ret = data[head]
    | ClearHead            // data[head] = NULL
    | MoveHead             // and ret is returned

  predicate Enabled(s: Ring, ev: Event)
  {
    s.Shaped() &&
    match ev
    case ReadTail(_) => s.ins.Away?
    case WriteTail => s.ins.SawNull?
    case MoveTail => s.ins.Stored?
    case ReadHead => s.get.Outside?
    case LoadHead => s.get.SawJob? && s.data[s.head].Full?
    case ClearHead => s.get.Loaded?
    case MoveHead => s.get.Cleared?
  }

  function After(s: Ring, ev: Event): (t: Ring)
    requires Enabled(s, ev)
    ensures t.Shaped() && |t.data| == |s.data|
  {
    match ev
    case ReadTail(job) => if s.data[s.tail] == Null then s.(ins := SawNull(job)) else s
    case WriteTail => s.(data := s.data[s.tail := Full(s.ins.job)], ins := Stored(s.ins.job))
    case MoveTail => s.(tail := s.Next(s.tail), ins := Away)
    case ReadHead => if s.data[s.head] == Null then s else s.(get := SawJob)
    case LoadHead => s.(get := Loaded(s.data[s.head].job))
    case ClearHead => s.(data := s.data[s.head := Null], get := Cleared(s.get.job))
    case MoveHead => s.(head := s.Next(s.head), get := Outside)
  }

  /** The bounded queue: a store appends, a clearing removes the oldest job. */
  function QueueAfter(q: seq<Job>, s: Ring, ev: Event): seq<Job>
  {
    match ev
    case WriteTail => if s.ins.SawNull? then q + [s.ins.job] else q
    case ClearHead => if q != [] then q[1..] else q
    case _ => q
  }

  // ----- one step

  lemma PlacesApart(s: Ring, from: nat, i: nat, j: nat)
    requires s.Shaped() && from < |s.data| && i < |s.data| && j < |s.data| && i != j
    ensures s.Place(from, i) != s.Place(from, j)
  {}

  lemma PlaceNext(s: Ring, from: nat, i: nat)
    requires s.Shaped() && from < |s.data| && i < |s.data|
    ensures s.Place(s.Next(from), i) == s.Place(from, i + 1) || i == |s.data| - 1
    ensures s.Place(s.Next(from), |s.data| - 1) == from == s.Place(from, 0)
    ensures s.Next(s.Place(from, i)) == s.Place(from, i + 1) || i == |s.data| - 1
    ensures s.Place(from, |s.data|) == from
    ensures s.Next(s.Place(from, |s.data| - 1)) == from
  {}

  /** The slot at tail is taken exactly when all slots are, the slot at head exactly when some is. */
  lemma EndsOfQueue(s: Ring, q: seq<Job>)
    requires s.Represents(q)
    ensures s.ins.Away? ==> (s.data[s.tail].Full? <==> |q| == |s.data|)
    ensures !s.get.Cleared? ==> (s.data[s.head].Full? <==> |q| > 0)
    ensures !s.get.Cleared? && |q| > 0 ==> s.data[s.head] == Full(q[0])
    ensures s.ins.SawNull? ==> s.data[s.tail] == Null
  {
    var f := s.Front();
    PlaceNext(s, f, 0);
    assert s.data[s.Place(f, 0)] == if 0 < |q| then Full(q[0]) else Null;
    if |q| < |s.data| { assert s.data[s.Place(f, |q|)] == Null; }
  }

  lemma StoreKeeps(s: Ring, q: seq<Job>)
    requires s.Represents(q) && s.ins.SawNull?
    ensures After(s, WriteTail).Represents(q + [s.ins.job])
  {
    var t, f, r := After(s, WriteTail), s.Front(), q + [s.ins.job];
    PlaceNext(s, f, |q|);
    forall i | 0 <= i < |t.data| ensures t.data[t.Place(f, i)] == if i < |r| then Full(r[i]) else Null {
      if i != |q| { PlacesApart(s, f, i, |q|); }
    }
    assert t.Front() == f;
  }

  lemma ClearKeeps(s: Ring, q: seq<Job>)
    requires s.Represents(q) && s.get.Loaded?
    ensures q != [] && After(s, ClearHead).Represents(q[1..])
  {
    var t, f, r := After(s, ClearHead), s.Front(), q[1..];
    PlaceNext(s, f, 0);
    forall i | 0 <= i < |t.data| ensures t.data[t.Place(t.Front(), i)] == if i < |r| then Full(r[i]) else Null {
      PlaceNext(s, f, i);
      if i < |s.data| - 1 {
        assert t.Place(t.Front(), i) == s.Place(f, i + 1);
        PlacesApart(s, f, i + 1, 0);
      }
    }
    PlaceNext(s, f, |q| - 1);
  }

  /** Every step of either thread is a step of the bounded queue. */
  lemma StepRefines(s: Ring, q: seq<Job>, ev: Event)
    requires s.Represents(q) && Enabled(s, ev)
    ensures After(s, ev).Represents(QueueAfter(q, s, ev))
  {
    EndsOfQueue(s, q);
    match ev
    case WriteTail => StoreKeeps(s, q);
    case ClearHead => ClearKeeps(s, q);
    case LoadHead => SameSlots(s, After(s, ev), q);
    case MoveTail => SameSlots(s, After(s, ev), q);
    case MoveHead => SameSlots(s, After(s, ev), q);
    case ReadTail(_) => SameSlots(s, After(s, ev), q);
    case ReadHead => SameSlots(s, After(s, ev), q);
  }

  lemma SameSlots(s: Ring, t: Ring, q: seq<Job>)
    requires s.Represents(q) && t.Shaped() && t.data == s.data && t.Front() == s.Front() && t.Back() == s.Back()
    requires (t.ins.SawNull? ==> |q| < |s.data|) && (t.get.SawJob? ==> |q| > 0)
    requires t.get.Loaded? ==> |q| > 0 && q[0] == t.get.job
    ensures t.Represents(q)
  {
    forall i | 0 <= i < |t.data| ensures t.data[t.Place(t.Front(), i)] == if i < |q| then Full(q[i]) else Null {
      assert t.Place(t.Front(), i) == s.Place(s.Front(), i);
    }
  }

  // ----- whole runs

  /** The jobs stored, the jobs cleared out, and the jobs returned so far. */
  datatype Trace = Trace(ring: Ring, accepted: seq<Job>, cleared: seq<Job>, returned: seq<Job>)

  function Begin(ring: Ring): Trace { Trace(ring, [], [], []) }

  function Extend(t: Trace, ev: Event): Trace
    requires Enabled(t.ring, ev)
  {
    Trace(After(t.ring, ev),
          if ev.WriteTail? then t.accepted + [t.ring.ins.job] else t.accepted,
          if ev.ClearHead? then t.cleared + [t.ring.get.job] else t.cleared,
          if ev.MoveHead? then t.returned + [t.ring.get.job] else t.returned)
  }

  /** A schedule of the two threads that is possible from the given ring. */
  predicate Possible(ring: Ring, evs: seq<Event>)
    decreases |evs|, 0
  {
    evs == [] || (Possible(ring, evs[..|evs| - 1]) && Enabled(Run(ring, evs[..|evs| - 1]).ring, evs[|evs| - 1]))
  }

  function Run(ring: Ring, evs: seq<Event>): Trace
    requires Possible(ring, evs)
    decreases |evs|, 1
  {
    if evs == [] then Begin(ring) else Extend(Run(ring, evs[..|evs| - 1]), evs[|evs| - 1])
  }

  /** A ring as constructed over the given memory. */
  function Fresh(data: seq<Slot>): Ring { Ring(data, 0, 0, Away, Outside) }

  predicate AllNull(data: seq<Slot>)
  {
    forall i | 0 <= i < |data| :: data[i] == Null
  }

  /** The queue between what was accepted and what was cleared. */
  ghost predicate Explained(t: Trace)
  {
    && |t.cleared| <= |t.accepted| && t.accepted[..|t.cleared|] == t.cleared
    && t.ring.Represents(t.accepted[|t.cleared|..])
    && (if t.ring.get.Cleared? then t.returned + [t.ring.get.job] == t.cleared else t.returned == t.cleared)
  }

  lemma ExtendExplained(t: Trace, ev: Event)
    requires Explained(t) && Enabled(t.ring, ev)
    ensures Explained(Extend(t, ev))
  {
    hide Ring.Represents, After;
    var q, n := t.accepted[|t.cleared|..], |t.cleared|;
    StepRefines(t.ring, q, ev);
    var u := Extend(t, ev);
    AfterThreads(t.ring, ev);
    if ev.WriteTail? {
      assert u.accepted[n..] == q + [t.ring.ins.job];
      assert u.accepted[..n] == t.accepted[..n];
    } else if ev.ClearHead? {
      OldestLoaded(t.ring, q);
      assert t.accepted[..n + 1] == t.accepted[..n] + [q[0]];
      assert u.accepted[n + 1..] == q[1..];
    }
  }

  lemma AfterThreads(s: Ring, ev: Event)
    requires Enabled(s, ev)
    ensures ev.ClearHead? ==> After(s, ev).get == Cleared(s.get.job)
    ensures ev.MoveHead? ==> !After(s, ev).get.Cleared?
    ensures !ev.ClearHead? && !ev.MoveHead? && s.get.Cleared? ==> After(s, ev).get == s.get
    ensures !ev.ClearHead? && !s.get.Cleared? ==> !After(s, ev).get.Cleared?
  {}

  lemma OldestLoaded(s: Ring, q: seq<Job>)
    requires s.Represents(q) && s.get.Loaded?
    ensures q != [] && q[0] == s.get.job
  {}

  lemma {:induction false} RunExplained(data: seq<Slot>, evs: seq<Event>)
    requires |data| > 0 && AllNull(data) && Possible(Fresh(data), evs)
    ensures Explained(Run(Fresh(data), evs))
  {
    hide Explained, Enabled;
    if evs == [] {
      FreshExplained(data);
    } else {
      RunExplained(data, evs[..|evs| - 1]);
      ExtendExplained(Run(Fresh(data), evs[..|evs| - 1]), evs[|evs| - 1]);
    }
  }

  lemma FreshExplained(data: seq<Slot>)
    requires |data| > 0 && AllNull(data)
    ensures Explained(Begin(Fresh(data)))
  {}

  /** What a bounded queue promises of one state: jobs come out in the order they were accepted,
      each once; an insertion is refused only when the ring is full, an empty answer given only when
      nothing waits. */
  ghost predicate Faithful(t: Trace)
    requires t.ring.Shaped()
  {
    && t.returned <= t.accepted && t.cleared <= t.accepted
    && |t.accepted| - |t.cleared| <= |t.ring.data|
    && (t.ring.ins.Away? ==> (t.ring.data[t.ring.tail].Full? <==> |t.accepted| - |t.cleared| == |t.ring.data|))
    && (t.ring.get.Outside? ==> (t.ring.data[t.ring.head].Full? <==> |t.returned| < |t.accepted|))
  }

  /** Under every interleaving the ring is a bounded first-in first-out queue. */
  lemma RingIsQueue(data: seq<Slot>, evs: seq<Event>)
    requires |data| > 0 && AllNull(data) && Possible(Fresh(data), evs)
    ensures Run(Fresh(data), evs).ring.Shaped() && Faithful(Run(Fresh(data), evs))
  {
    RunExplained(data, evs);
    var t := Run(Fresh(data), evs);
    EndsOfQueue(t.ring, t.accepted[|t.cleared|..]);
  }

  // ----- memory that is not null at the start

  /** Inserting job 0 to its end, k times in a row. */
  function Inserts(k: nat): seq<Event>
  {
    if k == 0 then [] else Inserts(k - 1) + [ReadTail(0), WriteTail, MoveTail]
  }

  lemma PossibleMore(ring: Ring, evs: seq<Event>, ev: Event)
    requires Possible(ring, evs) && Enabled(Run(ring, evs).ring, ev)
    ensures Possible(ring, evs + [ev]) && Run(ring, evs + [ev]) == Extend(Run(ring, evs), ev)
  {
    assert (evs + [ev])[..|evs|] == evs;
  }

  lemma {:induction false} InsertsRun(data: seq<Slot>, k: nat)
    requires k < |data| && forall i | 0 <= i < k :: data[i] == Null
    ensures Possible(Fresh(data), Inserts(k))
    ensures var t := Run(Fresh(data), Inserts(k));
      |t.accepted| == k && t.cleared == [] && t.ring.ins == Away && t.ring.head == 0 && t.ring.tail == k
        && |t.ring.data| == |data|
      && forall i | k <= i < |data| :: t.ring.data[i] == data[i]
  {
    hide Possible, Run;
    if k == 0 {
      assert Possible(Fresh(data), []) && Run(Fresh(data), []) == Begin(Fresh(data)) by { NoEvents(Fresh(data)); }
    } else {
      InsertsRun(data, k - 1);
      var r, e := Fresh(data), Inserts(k - 1);
      PossibleMore(r, e, ReadTail(0));
      PossibleMore(r, e + [ReadTail(0)], WriteTail);
      PossibleMore(r, e + [ReadTail(0)] + [WriteTail], MoveTail);
      assert Inserts(k) == e + [ReadTail(0)] + [WriteTail] + [MoveTail];
    }
  }

  lemma NoEvents(ring: Ring)
    ensures Possible(ring, []) && Run(ring, []) == Begin(ring)
  {}

  lemma {:induction false} FirstFull(data: seq<Slot>, n: nat) returns (k: nat)
    requires n <= |data| && exists i :: 0 <= i < n && data[i] != Null
    ensures k < n && data[k] != Null && forall i | 0 <= i < k :: data[i] == Null
  {
    if exists i :: 0 <= i < n - 1 && data[i] != Null {
      k := FirstFull(data, n - 1);
    } else {
      k := n - 1;
    }
  }

  /** The constructor leaves the memory as the allocator gives it: the ring is a queue under every
      interleaving exactly when all its slots happen to be null. */
  lemma QueueIffNull(data: seq<Slot>)
    requires |data| > 0
    ensures AllNull(data) <==>
            forall evs | Possible(Fresh(data), evs) ::
              Run(Fresh(data), evs).ring.Shaped() && Faithful(Run(Fresh(data), evs))
  {
    hide Possible, Run, Faithful;
    if AllNull(data) {
      forall evs | Possible(Fresh(data), evs)
        ensures Run(Fresh(data), evs).ring.Shaped() && Faithful(Run(Fresh(data), evs))
      {
        RingIsQueue(data, evs);
      }
    } else {
      var k := FirstFull(data, |data|);
      InsertsRun(data, k);
      RefusedEarly(Run(Fresh(data), Inserts(k)));
    }
  }

  lemma RefusedEarly(t: Trace)
    requires t.ring.Shaped() && t.ring.ins.Away? && t.ring.data[t.ring.tail].Full?
    requires |t.accepted| - |t.cleared| < |t.ring.data|
    ensures !Faithful(t)
  {}

  // ----- the class

  class JobQueue {
    const data: array<Slot>
    const q_max: nat
    var head: nat
    var tail: nat

    ghost predicate Shape()
    {
      data.Length == q_max + 1
    }

    ghost function Value(): Ring
      reads this, data
    {
      Ring(data[..], head, tail, Away, Outside)
    }

    /** The ring over memory with the given contents. */
    constructor (memory: seq<Slot>)
      requires |memory| > 0
      ensures Shape() && Value() == Fresh(memory) && fresh(data)
      ensures AllNull(memory) ==> Value().Represents([])
    {
      data := new Slot[|memory|](i requires 0 <= i < |memory| => memory[i]);
      q_max := |memory| - 1;
      head := 0;
      tail := 0;
      new;
      assert data[..] == memory;
    }

    method InsertJob(job: Job, ghost q: seq<Job>) returns (ok: bool)
      requires Shape() && Value().Represents(q)
      modifies this`tail, data
      ensures ok <==> |q| < data.Length
      ensures Value().Represents(if ok then q + [job] else q)
    {
      hide Ring.Represents;
      ghost var s := Value();
      ShapedRing(s, q);
      EndsOfQueue(s, q);
      StepRefines(s, q, ReadTail(job));
      if data[tail] != Null { return false; }
      ghost var s1 := After(s, ReadTail(job));
      StepRefines(s1, q, WriteTail);
      data[tail] := Full(job);
      ghost var s2 := After(s1, WriteTail);
      assert data[..] == s2.data;
      StepRefines(s2, q + [job], MoveTail);
      tail := if tail == q_max then 0 else tail + 1;
      assert Value() == After(s2, MoveTail);
      ok := true;
    }

    method GetJob(ghost q: seq<Job>) returns (r: Slot)
      requires Shape() && Value().Represents(q)
      modifies this`head, data
      ensures r == if q == [] then Null else Full(q[0])
      ensures Value().Represents(if q == [] then q else q[1..])
    {
      hide Ring.Represents;
      ghost var s := Value();
      ShapedRing(s, q);
      EndsOfQueue(s, q);
      StepRefines(s, q, ReadHead);
      if data[head] == Null { return Null; }
      ghost var s1 := After(s, ReadHead);
      r := data[head];
      StepRefines(s1, q, LoadHead);
      ghost var s2 := After(s1, LoadHead);
      StepRefines(s2, q, ClearHead);
      data[head] := Null;
      ghost var s3 := After(s2, ClearHead);
      assert data[..] == s3.data;
      StepRefines(s3, q[1..], MoveHead);
      head := if head == q_max then 0 else head + 1;
      assert Value() == After(s3, MoveHead);
    }
  }

  lemma ShapedRing(s: Ring, q: seq<Job>)
    requires s.Represents(q)
    ensures s.Shaped()
  {}
}
