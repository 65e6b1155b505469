/** The handlers as the programs they are: any number of arrivals, rounds of a pass, uploads and
    forgets, each somewhere between its locks, in any interleaving. Bytes come and go meanwhile. */
module Windows {
  import opened Ids
  import opened Content
  import opened Stash
  import opened Interleaving

  /** Where one handler has got to. */
  datatype Flow =
    | Arriving(ns: NamespaceId, hash: ContentHash, draft: TrackedEntry)
    | Looking(hash: ContentHash, draft: TrackedEntry)
    | Inserting(hash: ContentHash, draft: TrackedEntry, present: bool)
    | Checking(hash: ContentHash, seen: TrackedEntry, nowMs: nat, downloads: bool)
    | Settling(hash: ContentHash, seen: TrackedEntry, nowMs: nat, ready: bool)
    | Offering(ns: NamespaceId, hash: ContentHash)
    | Storing(hash: ContentHash)
    | Marking(hash: ContentHash)
    | Forgetting(ns: NamespaceId, hash: ContentHash)
    | Removing(hash: ContentHash)
    | Finished

  type Pid = nat

  datatype System = System(locks: Locks, flows: map<Pid, Flow>)

  datatype Event =
    | Begin(pid: Pid, flow: Flow)
    | Advance(pid: Pid)
    | Appear(hash: ContentHash)
    | Reclaim(victims: set<ContentHash>)

  const IDLE := System(START, map[])

  predicate Initial(flow: Flow) {
    flow.Arriving? || flow.Checking? || flow.Offering? || flow.Forgetting?
  }

  /** The round of a pass that fetches: the store lacks the bytes, the retry time has come, and the
      download succeeds. */
  predicate Downloads(flow: Flow, s: Locks)
    requires flow.Checking?
  {
    flow.hash !in s.stored && flow.nowMs >= flow.seen.nextAttemptMs && flow.downloads
  }

  /** What the handler does next. */
  function Performs(flow: Flow, s: Locks): LockStep {
    match flow
    case Arriving(ns, hash, _) => Want(ns, hash)
    case Inserting(hash, draft, present) => Insert(hash, draft.(contentPresent := present, woken := present))
    case Checking(hash, _, _, _) => if Downloads(flow, s) then Land(hash) else Look
    case Settling(hash, seen, nowMs, ready) => Update(hash, seen, ready, nowMs)
    case Storing(hash) => Land(hash)
    case Marking(hash) => MarkPresent(hash)
    case Forgetting(ns, hash) => Forget(ns, hash)
    case Removing(hash) => Remove(hash)
    case _ => Look
  }

  predicate DropsLast(s: Locks, ns: NamespaceId, hash: ContentHash) {
    hash in s.index.state && hash !in Release(s.index, map[ns := {hash}]).state
  }

  /** Where that leaves it. */
  function Resumes(flow: Flow, s: Locks): Flow {
    match flow
    case Arriving(_, hash, draft) => Looking(hash, draft)
    case Looking(hash, draft) => Inserting(hash, draft, hash in s.stored)
    case Inserting(hash, _, present) => if present then Marking(hash) else Finished
    case Checking(hash, seen, nowMs, _) => Settling(hash, seen, nowMs, hash in s.stored || Downloads(flow, s))
    case Offering(ns, hash) => if TrackedFor(s.index, ns, hash) then Storing(hash) else Finished
    case Storing(hash) => Marking(hash)
    case Forgetting(ns, hash) => if DropsLast(s, ns, hash) then Removing(hash) else Finished
    case _ => Finished
  }

  predicate Possible(sys: System, event: Event) {
    match event
    case Begin(pid, flow) => pid !in sys.flows && Initial(flow)
    case Advance(pid) => pid in sys.flows
    case _ => true
  }

  function Takes(sys: System, event: Event): LockStep {
    match event
    case Begin(_, _) => Look
    case Advance(pid) => if pid in sys.flows then Performs(sys.flows[pid], sys.locks) else Look
    case Appear(hash) => Land(hash)
    case Reclaim(victims) => Collect(victims)
  }

  function Next(sys: System, event: Event): System {
    System(
      Apply(sys.locks, Takes(sys, event)),
      match event
      case Begin(pid, flow) => sys.flows[pid := flow]
      case Advance(pid) => if pid in sys.flows then sys.flows[pid := Resumes(sys.flows[pid], sys.locks)] else sys.flows
      case _ => sys.flows)
  }

  function Exec(sys: System, events: seq<Event>): System {
    if events == [] then sys else Next(Exec(sys, events[..|events| - 1]), events[|events| - 1])
  }

  ghost predicate Allowed(sys: System, events: seq<Event>) {
    events == [] ||
    (Allowed(sys, events[..|events| - 1]) && Possible(Exec(sys, events[..|events| - 1]), events[|events| - 1]))
  }

  predicate Quiescent(sys: System) {
    forall pid :: pid in sys.flows ==> sys.flows[pid].Finished?
  }

  lemma ExecSnoc(sys: System, events: seq<Event>, event: Event)
    ensures Exec(sys, events + [event]) == Next(Exec(sys, events), event)
    ensures Allowed(sys, events + [event]) <==> Allowed(sys, events) && Possible(Exec(sys, events), event)
  {
    var all := events + [event];
    assert all[..|all| - 1] == events;
  }

  // ---------------------------------------------------------------------------------------------
  // Runs are interleavings
  // ---------------------------------------------------------------------------------------------

  /** The lock steps a run takes. */
  function Trace(events: seq<Event>): seq<LockStep> {
    if events == [] then []
    else Trace(events[..|events| - 1]) + [Takes(Exec(IDLE, events[..|events| - 1]), events[|events| - 1])]
  }

  lemma {:induction false} RunsAreInterleavings(events: seq<Event>)
    ensures Exec(IDLE, events).locks == Replay(Trace(events))
    ensures forall k :: 0 <= k < |Trace(events)| ==> FromHandler(Trace(events)[k])
    ensures Sound(Exec(IDLE, events).locks)
  {
    if events != [] {
      var front := events[..|events| - 1];
      RunsAreInterleavings(front);
      assert Trace(events)[..|Trace(events)| - 1] == Trace(front);
    }
    SurvivesInterleaving(Trace(events));
  }

  // ---------------------------------------------------------------------------------------------
  // Agreement
  // ---------------------------------------------------------------------------------------------

  /** Between an arrival's reference and its ledger entry. */
  predicate InArrival(flow: Flow, h: ContentHash) {
    (flow.Looking? || flow.Inserting?) && flow.hash == h
  }

  predicate ArrivalOpen(sys: System, h: ContentHash) {
    exists pid :: pid in sys.flows && InArrival(sys.flows[pid], h)
  }

  /** Between a sweep's last release and the removal it owes. */
  predicate SweepOpen(sys: System, h: ContentHash) {
    exists pid :: pid in sys.flows && sys.flows[pid] == Removing(h)
  }

  /** What holds while the two kinds of window never overlap. */
  ghost predicate Agrees(sys: System, h: ContentHash) {
    && WellFormed(sys.locks.index)
    && (ArrivalOpen(sys, h) ==> h in sys.locks.index.state)
    && (SweepOpen(sys, h) ==> h !in sys.locks.index.state)
    && (!ArrivalOpen(sys, h) && !SweepOpen(sys, h) ==> (h in sys.locks.index.state <==> h in sys.locks.ledger))
  }

  predicate Overlap(sys: System, h: ContentHash) {
    ArrivalOpen(sys, h) && SweepOpen(sys, h)
  }

  /** If no arrival's window and sweep's window for `h` are ever open together, then index and ledger
      agree about `h` whenever neither is open. */
  lemma {:induction false} AgreeWithoutOverlap(events: seq<Event>, h: ContentHash)
    requires Allowed(IDLE, events)
    requires forall k :: 0 <= k <= |events| ==> !Overlap(Exec(IDLE, events[..k]), h)
    ensures Agrees(Exec(IDLE, events), h)
  {
    if events != [] {
      var front := events[..|events| - 1];
      forall k | 0 <= k <= |front| ensures !Overlap(Exec(IDLE, front[..k]), h) {
        assert front[..k] == events[..k];
      }
      AgreeWithoutOverlap(front, h);
      assert events[..|events|] == events;
      RunsAreInterleavings(front);
      AgreeStep(Exec(IDLE, front), events[|events| - 1], h);
    }
  }

  /** A forget can end only the hash it forgets. */
  lemma ForgetSparesOthers(index: IndexState, ns: NamespaceId, hash: ContentHash, h: ContentHash)
    requires WellFormed(index) && h != hash && h in index.state
    ensures h in Release(index, map[ns := {hash}]).state
  {
    var owner :| owner in index.byNamespace && h in index.byNamespace[owner];
    var rest := Remaining(index.byNamespace, map[ns := {hash}]);
    assert h in index.byNamespace[owner] - Names(map[ns := {hash}], owner);
    assert owner in rest && h in rest[owner];
  }

  /** What one handler's step does to index and ledger, as far as `h` goes. */
  lemma HandlerStep(s: Locks, flow: Flow, h: ContentHash)
    requires WellFormed(s.index) && (InArrival(flow, h) ==> h in s.index.state)
    ensures var after, resumed := Apply(s, Performs(flow, s)), Resumes(flow, s);
            && (InArrival(resumed, h) ==> h in after.index.state)
            && (resumed == Removing(h) ==> h !in after.index.state)
            && (!InArrival(resumed, h) && resumed != Removing(h) ==>
                  && (h in after.index.state <==> h in s.index.state)
                  && (h in after.ledger <==> InArrival(flow, h) || (flow != Removing(h) && h in s.ledger)))
            && (h in s.index.state ==> h in after.index.state || resumed == Removing(h))
            && (h in after.index.state ==> h in s.index.state || InArrival(resumed, h))
  {
    IndexStep(s, Performs(flow, s));
    if flow.Forgetting? && flow.hash != h && h in s.index.state {
      ForgetSparesOthers(s.index, flow.ns, flow.hash, h);
    }
  }

  /** The windows after one handler's step, whose flow was not or is not in one. */
  lemma WindowStep(sys: System, pid: Pid, flow: Flow, h: ContentHash)
    ensures var after := sys.(flows := sys.flows[pid := flow]);
            && (InArrival(flow, h) ==> ArrivalOpen(after, h))
            && (flow == Removing(h) ==> SweepOpen(after, h))
            && (ArrivalOpen(after, h) ==> InArrival(flow, h) || ArrivalOpen(sys, h))
            && (SweepOpen(after, h) ==> flow == Removing(h) || SweepOpen(sys, h))
            && (ArrivalOpen(sys, h) ==> ArrivalOpen(after, h) || (pid in sys.flows && InArrival(sys.flows[pid], h)))
            && (SweepOpen(sys, h) ==> SweepOpen(after, h) || (pid in sys.flows && sys.flows[pid] == Removing(h)))
  {
    var after := sys.(flows := sys.flows[pid := flow]);
    assert after.flows[pid] == flow;
    forall p | p in sys.flows && p != pid ensures p in after.flows && after.flows[p] == sys.flows[p] {
    }
  }

  lemma AgreeStep(sys: System, event: Event, h: ContentHash)
    requires Agrees(sys, h) && !Overlap(sys, h) && Possible(sys, event) && !Overlap(Next(sys, event), h)
    ensures Agrees(Next(sys, event), h)
  {
    IndexStep(sys.locks, Takes(sys, event));
    match event
    case Begin(pid, flow) =>
      WindowStep(sys, pid, flow, h);
    case Advance(pid) =>
      AdvanceStep(sys, pid, h);
    case _ =>
      SameWindows(sys, Next(sys, event).locks, h);
  }

  lemma SameWindows(sys: System, locks: Locks, h: ContentHash)
    ensures ArrivalOpen(sys.(locks := locks), h) <==> ArrivalOpen(sys, h)
    ensures SweepOpen(sys.(locks := locks), h) <==> SweepOpen(sys, h)
  {
  }

  lemma AdvanceStep(sys: System, pid: Pid, h: ContentHash)
    requires Agrees(sys, h) && !Overlap(sys, h) && pid in sys.flows && !Overlap(Next(sys, Advance(pid)), h)
    ensures Agrees(Next(sys, Advance(pid)), h)
  {
    var flow := sys.flows[pid];
    HandlerStep(sys.locks, flow, h);
    WindowStep(sys, pid, Resumes(flow, sys.locks), h);
    IndexStep(sys.locks, Performs(flow, sys.locks));
    var after := Next(sys, Advance(pid));
    SameWindows(sys.(flows := after.flows), after.locks, h);
  }

  /** So a run that lets every handler finish, and never opens both windows for one hash, leaves the
      index and the ledger with the same hashes. */
  lemma AgreeAtRest(events: seq<Event>)
    requires Allowed(IDLE, events)
    requires forall pid :: pid in Exec(IDLE, events).flows ==> Exec(IDLE, events).flows[pid] == Finished
    requires forall k, p, q ::
      0 <= k <= |events| && p in Exec(IDLE, events[..k]).flows && q in Exec(IDLE, events[..k]).flows ==>
        var arrival, sweep := Exec(IDLE, events[..k]).flows[p], Exec(IDLE, events[..k]).flows[q];
        arrival.Looking? || arrival.Inserting? ==> sweep != Removing(arrival.hash)
    ensures Exec(IDLE, events).locks.ledger.Keys == Exec(IDLE, events).locks.index.state.Keys
  {
    var s := Exec(IDLE, events).locks;
    hide Exec, Allowed;
    forall k, h | 0 <= k <= |events| ensures !Overlap(Exec(IDLE, events[..k]), h) {}
    forall h ensures h in s.ledger <==> h in s.index.state {
      AgreeWithoutOverlap(events, h);
    }
  }

  /** And with any overlap, exactly when the trace's last words on the hash agree. */
  lemma AgreeOnTrace(events: seq<Event>, h: ContentHash)
    ensures var s, steps := Exec(IDLE, events).locks, Trace(events);
            (h in s.index.state <==> h in s.ledger)
            <==> ((exists ns :: LastWanted(steps, ns, h)) <==> LastInserted(steps, h))
  {
    RunsAreInterleavings(events);
    AgreeExactly(Trace(events), h);
  }

  // ---------------------------------------------------------------------------------------------
  // Runs that disagree
  // ---------------------------------------------------------------------------------------------

  lemma {:induction false} ExecAppend(sys: System, a: seq<Event>, b: seq<Event>)
    ensures Exec(sys, a + b) == Exec(Exec(sys, a), b)
    ensures Allowed(sys, a + b) <==> Allowed(sys, a) && Allowed(Exec(sys, a), b)
  {
    if b == [] {
      assert a + b == a;
    } else {
      var n := |b| - 1;
      ExecAppend(sys, a, b[..n]);
      assert a + b == (a + b[..n]) + [b[n]];
      ExecSnoc(sys, a + b[..n], b[n]);
    }
  }

  lemma ExecTwo(sys: System, e1: Event, e2: Event)
    ensures Exec(sys, [e1, e2]) == Next(Next(sys, e1), e2)
    ensures Allowed(sys, [e1, e2]) <==> Possible(sys, e1) && Possible(Next(sys, e1), e2)
  {
    ExecSnoc(sys, [], e1);
    ExecSnoc(sys, [e1], e2);
    assert [] + [e1] == [e1] && [e1] + [e2] == [e1, e2];
  }

  /** A handler's first two steps, and any two steps that follow. */
  function Opening(pid: Pid, flow: Flow): seq<Event> {
    [Begin(pid, flow), Advance(pid)]
  }

  function Twice(pid: Pid): seq<Event> {
    [Advance(pid), Advance(pid)]
  }

  lemma Opens(sys: System, pid: Pid, flow: Flow)
    requires pid !in sys.flows && Initial(flow)
    ensures Allowed(sys, Opening(pid, flow))
    ensures Exec(sys, Opening(pid, flow))
         == System(Apply(sys.locks, Performs(flow, sys.locks)), sys.flows[pid := Resumes(flow, sys.locks)])
  {
    ExecTwo(sys, Begin(pid, flow), Advance(pid));
    assert sys.flows[pid := flow][pid := Resumes(flow, sys.locks)] == sys.flows[pid := Resumes(flow, sys.locks)];
  }

  /** What an arrival puts on the ledger. */
  function Drafted(draft: TrackedEntry, present: bool): TrackedEntry {
    draft.(contentPresent := present, woken := present)
  }

  /** An arrival that has its reference asks the store and inserts. */
  lemma Inserts(sys: System, pid: Pid, h: ContentHash, draft: TrackedEntry)
    requires pid in sys.flows && sys.flows[pid] == Looking(h, draft)
    ensures Allowed(sys, Twice(pid))
    ensures var present := h in sys.locks.stored;
            Exec(sys, Twice(pid)) == System(Apply(sys.locks, Insert(h, Drafted(draft, present))),
                                            sys.flows[pid := if present then Marking(h) else Finished])
  {
    ExecTwo(sys, Advance(pid), Advance(pid));
    var present := h in sys.locks.stored;
    var last := if present then Marking(h) else Finished;
    assert sys.flows[pid := Inserting(h, draft, present)][pid := last] == sys.flows[pid := last];
  }

  lemma OneEvent(sys: System, event: Event)
    ensures Exec(sys, [event]) == Next(sys, event)
    ensures Allowed(sys, [event]) <==> Possible(sys, event)
  {
    ExecSnoc(sys, [], event);
    assert [] + [event] == [event];
  }

  /** The index while one namespace names one hash. */
  function Alone(ns: NamespaceId, h: ContentHash, presence: Presence): IndexState {
    IndexState(map[h := presence], map[ns := {h}])
  }

  lemma WantedAlone(ns: NamespaceId, h: ContentHash)
    ensures WithReference(START.index, ns, h) == Alone(ns, h, Wanted)
    ensures forall p :: Release(Alone(ns, h, p), map[ns := {h}]) == START.index
  {
    assert Names(START.index.byNamespace, ns) + {h} == {h};
  }

  function SweepInsideArrivalRun(ns: NamespaceId, h: ContentHash, draft: TrackedEntry): seq<Event> {
    Opening(0, Arriving(ns, h, draft)) + Opening(1, Forgetting(ns, h)) + [Advance(1)] + Twice(0)
  }

  /** A whole sweep between an arrival's reference and its ledger entry. Every handler finishes, and
      the ledger is left chasing a hash nobody names. */
  lemma SweepInsideArrival(ns: NamespaceId, h: ContentHash, draft: TrackedEntry)
    ensures var events := SweepInsideArrivalRun(ns, h, draft);
            var s := Exec(IDLE, events);
            Allowed(IDLE, events) && Quiescent(s) && h in s.locks.ledger && h !in s.locks.index.state
  {
    hide Exec, Allowed, Release, WithReference;
    WantedAlone(ns, h);
    var first := Opening(0, Arriving(ns, h, draft));
    Opens(IDLE, 0, Arriving(ns, h, draft));
    var s1 := System(Locks(Alone(ns, h, Wanted), map[], {}), map[0 := Looking(h, draft)]);
    assert Exec(IDLE, first) == s1;
    Opens(s1, 1, Forgetting(ns, h));
    var s2 := System(START, map[0 := Looking(h, draft), 1 := Removing(h)]);
    assert Exec(s1, Opening(1, Forgetting(ns, h))) == s2;
    ExecAppend(IDLE, first, Opening(1, Forgetting(ns, h)));
    var second := first + Opening(1, Forgetting(ns, h));
    OneEvent(s2, Advance(1));
    var s3 := System(START, map[0 := Looking(h, draft), 1 := Finished]);
    assert Exec(s2, [Advance(1)]) == s3;
    ExecAppend(IDLE, second, [Advance(1)]);
    Inserts(s3, 0, h, draft);
    ExecAppend(IDLE, second + [Advance(1)], Twice(0));
  }

  function ArrivalInsideSweepRun(ns: NamespaceId, h: ContentHash, draft: TrackedEntry): seq<Event> {
    Opening(0, Arriving(ns, h, draft)) + Twice(0)
    + Opening(1, Forgetting(ns, h)) + (Opening(2, Arriving(ns, h, draft)) + Twice(2)) + [Advance(1)]
  }

  /** An arrival alone, from its first lock to its last but one. */
  lemma Arrives(sys: System, pid: Pid, ns: NamespaceId, h: ContentHash, draft: TrackedEntry)
    requires pid !in sys.flows
    ensures var events, present := Opening(pid, Arriving(ns, h, draft)) + Twice(pid), h in sys.locks.stored;
            && Allowed(sys, events)
            && Exec(sys, events) == System(
                 Apply(Apply(sys.locks, Want(ns, h)), Insert(h, Drafted(draft, present))),
                 sys.flows[pid := if present then Marking(h) else Finished])
  {
    hide Exec, Allowed;
    var flow := Arriving(ns, h, draft);
    Opens(sys, pid, flow);
    ExecAppend(sys, Opening(pid, flow), Twice(pid));
    var open := Exec(sys, Opening(pid, flow));
    Inserts(open, pid, h, draft);
    var last := if h in sys.locks.stored then Marking(h) else Finished;
    assert sys.flows[pid := Looking(h, draft)][pid := last] == sys.flows[pid := last];
  }

  /** A whole arrival between a sweep's last release and the removal it owes. Every handler finishes,
      and the index is left wanting a hash no pass will ever look at. */
  lemma ArrivalInsideSweep(ns: NamespaceId, h: ContentHash, draft: TrackedEntry)
    ensures var events := ArrivalInsideSweepRun(ns, h, draft);
            var s := Exec(IDLE, events);
            Allowed(IDLE, events) && Quiescent(s) && h in Missing(s.locks.index) && h !in s.locks.ledger
  {
    hide Exec, Allowed, Release, WithReference;
    WantedAlone(ns, h);
    var a, b := Opening(0, Arriving(ns, h, draft)) + Twice(0), Opening(1, Forgetting(ns, h));
    var c, entry := Opening(2, Arriving(ns, h, draft)) + Twice(2), Drafted(draft, false);
    Arrives(IDLE, 0, ns, h, draft);
    var s1 := System(Locks(Alone(ns, h, Wanted), map[h := entry], {}), map[0 := Finished]);
    assert Exec(IDLE, a) == s1;
    Opens(s1, 1, Forgetting(ns, h));
    var s2 := System(Locks(START.index, map[h := entry], {}), map[0 := Finished, 1 := Removing(h)]);
    assert Exec(s1, b) == s2;
    ExecAppend(IDLE, a, b);
    Arrives(s2, 2, ns, h, draft);
    ExecAppend(IDLE, a + b, c);
    var s3 := System(Locks(Alone(ns, h, Wanted), map[h := entry], {}), map[0 := Finished, 1 := Removing(h), 2 := Finished]);
    assert Exec(s2, c) == s3;
    OneEvent(s3, Advance(1));
    ExecAppend(IDLE, a + b + c, [Advance(1)]);
  }

  // ---------------------------------------------------------------------------------------------
  // Present is stored
  // ---------------------------------------------------------------------------------------------

  /** The handler has seen the bytes and will call the hash present. */
  predicate AboutToMark(flow: Flow, h: ContentHash) {
    || (flow.Inserting? && flow.hash == h && flow.present)
    || flow == Marking(h)
    || (flow.Settling? && flow.hash == h && flow.ready)
  }

  ghost predicate PresentIsStored(s: Locks) {
    forall h :: IsPresent(s.index, h) ==> h in s.stored
  }

  ghost predicate MarksAreStored(sys: System) {
    forall pid, h :: pid in sys.flows && AboutToMark(sys.flows[pid], h) ==> h in sys.locks.stored
  }

  /** A collection that takes nothing referenced, which the callback sees to, and nothing a handler is
      about to mark, which nothing sees to. */
  ghost predicate Careful(sys: System, event: Event) {
    event.Reclaim? ==>
      forall h :: h in event.victims ==>
        h !in sys.locks.index.state && forall pid :: pid in sys.flows ==> !AboutToMark(sys.flows[pid], h)
  }

  lemma PresentStep(sys: System, event: Event)
    requires PresentIsStored(sys.locks) && MarksAreStored(sys) && Careful(sys, event) && Possible(sys, event)
    ensures PresentIsStored(Next(sys, event).locks) && MarksAreStored(Next(sys, event))
  {
  }

  /** From any state in which it holds: what the index calls present stays stored in every run whose
      collections are careful. */
  lemma {:induction false} PresentStaysStored(sys: System, events: seq<Event>)
    requires PresentIsStored(sys.locks) && MarksAreStored(sys) && Allowed(sys, events)
    requires forall k :: 0 <= k < |events| ==> Careful(Exec(sys, events[..k]), events[k])
    ensures PresentIsStored(Exec(sys, events).locks) && MarksAreStored(Exec(sys, events))
  {
    if events != [] {
      var front := events[..|events| - 1];
      forall k | 0 <= k < |front| ensures Careful(Exec(sys, front[..k]), front[k]) {
        assert front[..k] == events[..k];
      }
      PresentStaysStored(sys, front);
      PresentStep(Exec(sys, front), events[|events| - 1]);
    }
  }

  lemma SparedIsNotMarked(flow: Flow, x: ContentHash)
    requires flow != Marking(x)
    requires flow.Inserting? ==> flow.hash != x || !flow.present
    requires flow.Settling? ==> flow.hash != x || !flow.ready
    ensures !AboutToMark(flow, x)
  {
  }

  /** So from the start, if no collection takes a referenced hash or one that a handler has found
      stored and has yet to mark, what the index calls present is stored. */
  lemma PresentIsStoredThroughout(events: seq<Event>, h: ContentHash)
    requires Allowed(IDLE, events)
    requires forall k, x :: 0 <= k < |events| && events[k].Reclaim? && x in events[k].victims ==>
      x !in Exec(IDLE, events[..k]).locks.index.state
    requires forall k, x, pid ::
      0 <= k < |events| && events[k].Reclaim? && x in events[k].victims && pid in Exec(IDLE, events[..k]).flows ==>
        var flow := Exec(IDLE, events[..k]).flows[pid];
        && flow != Marking(x)
        && (flow.Inserting? ==> flow.hash != x || !flow.present)
        && (flow.Settling? ==> flow.hash != x || !flow.ready)
    ensures var s := Exec(IDLE, events).locks;
            h in s.index.state && s.index.state[h] == Present ==> h in s.stored
  {
    hide Exec, Allowed;
    forall k | 0 <= k < |events| ensures Careful(Exec(IDLE, events[..k]), events[k]) {
      var sys := Exec(IDLE, events[..k]);
      if events[k].Reclaim? {
        forall x, pid | x in events[k].victims && pid in sys.flows ensures !AboutToMark(sys.flows[pid], x) {
          SparedIsNotMarked(sys.flows[pid], x);
        }
        forall x | x in events[k].victims ensures x !in sys.locks.index.state {}
        assert Careful(sys, events[k]);
      }
    }
    PresentStaysStored(IDLE, events);
  }

  predicate NoReclaim(events: seq<Event>) {
    forall k :: 0 <= k < |events| ==> !events[k].Reclaim?
  }

  /** From here some run without a further collection ends with absent bytes called present. */
  ghost predicate CanBreak(sys: System) {
    exists events :: Allowed(sys, events) && NoReclaim(events) && !PresentIsStored(Exec(sys, events).locks)
  }

  lemma {:induction false} SparePid(pids: set<Pid>) returns (spare: Pid)
    ensures forall pid :: pid in pids ==> pid < spare
  {
    if pids == {} {
      spare := 0;
    } else {
      var pid :| pid in pids;
      var rest := SparePid(pids - {pid});
      assert forall other :: other in pids ==> other == pid || other in pids - {pid};
      spare := if pid < rest then rest else pid + 1;
    }
  }

  /** A handler about to mark absent bytes of a hash that index and ledger know will do so. */
  lemma MarkBreaks(sys: System, pid: Pid, h: ContentHash) returns (events: seq<Event>)
    requires pid in sys.flows && AboutToMark(sys.flows[pid], h)
    requires h in sys.locks.index.state && h in sys.locks.ledger && h !in sys.locks.stored
    ensures Allowed(sys, events) && NoReclaim(events)
    ensures IsPresent(Exec(sys, events).locks.index, h) && h !in Exec(sys, events).locks.stored
  {
    hide Exec, Allowed;
    if sys.flows[pid].Inserting? {
      events := Twice(pid);
      ExecTwo(sys, Advance(pid), Advance(pid));
    } else {
      events := [Advance(pid)];
      OneEvent(sys, Advance(pid));
    }
  }

  /** While the invariant holds, it can break without a further collection if and only if some handler
      is about to mark a hash whose bytes are already gone. */
  lemma BreaksExactly(sys: System, ns: NamespaceId, draft: TrackedEntry)
    requires PresentIsStored(sys.locks)
    ensures CanBreak(sys) <==> !MarksAreStored(sys)
  {
    hide Exec, Allowed;
    if CanBreak(sys) && MarksAreStored(sys) {
      var events :| Allowed(sys, events) && NoReclaim(events) && !PresentIsStored(Exec(sys, events).locks);
      PresentStaysStored(sys, events);
      assert false;
    }
    if !MarksAreStored(sys) {
      var pid, h :| pid in sys.flows && AboutToMark(sys.flows[pid], h) && h !in sys.locks.stored;
      var spare := SparePid(sys.flows.Keys);
      var arrival := Opening(spare, Arriving(ns, h, draft)) + Twice(spare);
      Arrives(sys, spare, ns, h, draft);
      var rest := MarkBreaks(Exec(sys, arrival), pid, h);
      ExecAppend(sys, arrival, rest);
      assert Allowed(sys, arrival + rest) && NoReclaim(arrival + rest);
    }
  }

  function BytesGoneRun(ns: NamespaceId, h: ContentHash, draft: TrackedEntry): seq<Event> {
    [Appear(h)] + (Opening(0, Arriving(ns, h, draft)) + Twice(0)) + Opening(1, Forgetting(ns, h)) + [Advance(1)]
  }

  lemma BytesGone(ns: NamespaceId, h: ContentHash, draft: TrackedEntry)
    ensures Allowed(IDLE, BytesGoneRun(ns, h, draft))
    ensures Exec(IDLE, BytesGoneRun(ns, h, draft))
         == System(START.(stored := {h}), map[0 := Marking(h), 1 := Finished])
  {
    hide Exec, Allowed, Release, WithReference;
    WantedAlone(ns, h);
    var arrival := Opening(0, Arriving(ns, h, draft)) + Twice(0);
    var forget, present := Opening(1, Forgetting(ns, h)), Drafted(draft, true);
    OneEvent(IDLE, Appear(h));
    var s0 := System(START.(stored := {h}), map[]);
    assert Exec(IDLE, [Appear(h)]) == s0;
    Arrives(s0, 0, ns, h, draft);
    ExecAppend(IDLE, [Appear(h)], arrival);
    var s1 := System(Locks(Alone(ns, h, Wanted), map[h := present], {h}), map[0 := Marking(h)]);
    assert Exec(s0, arrival) == s1;
    Opens(s1, 1, Forgetting(ns, h));
    ExecAppend(IDLE, [Appear(h)] + arrival, forget);
    var s2 := System(Locks(START.index, map[h := present], {h}), map[0 := Marking(h), 1 := Removing(h)]);
    assert Exec(s1, forget) == s2;
    OneEvent(s2, Advance(1));
    ExecAppend(IDLE, [Appear(h)] + arrival + forget, [Advance(1)]);
  }

  function MarkedGoneRun(ns: NamespaceId, h: ContentHash, draft: TrackedEntry): seq<Event> {
    [Reclaim({h})] + (Opening(2, Arriving(ns, h, draft)) + Twice(2)) + [Advance(0)]
  }

  /** A forget, a collection and a fresh arrival between an arrival's look at the store and its mark:
      the collection takes nothing referenced, every handler finishes, and the index calls bytes
      present that are gone. */
  lemma CollectionInsideArrival(ns: NamespaceId, h: ContentHash, draft: TrackedEntry)
    ensures var before := BytesGoneRun(ns, h, draft);
            var events := before + MarkedGoneRun(ns, h, draft);
            && h !in Exec(IDLE, before).locks.index.state
            && Allowed(IDLE, events) && Quiescent(Exec(IDLE, events))
            && IsPresent(Exec(IDLE, events).locks.index, h) && h !in Exec(IDLE, events).locks.stored
  {
    hide Exec, Allowed, Release, WithReference, BytesGoneRun;
    WantedAlone(ns, h);
    BytesGone(ns, h, draft);
    var again, absent := Opening(2, Arriving(ns, h, draft)) + Twice(2), Drafted(draft, false);
    var s0 := System(START.(stored := {h}), map[0 := Marking(h), 1 := Finished]);
    OneEvent(s0, Reclaim({h}));
    var s1 := System(START, map[0 := Marking(h), 1 := Finished]);
    assert Exec(s0, [Reclaim({h})]) == s1;
    Arrives(s1, 2, ns, h, draft);
    ExecAppend(s0, [Reclaim({h})], again);
    var s2 := System(Locks(Alone(ns, h, Wanted), map[h := absent], {}), map[0 := Marking(h), 1 := Finished, 2 := Finished]);
    assert Exec(s1, again) == s2;
    OneEvent(s2, Advance(0));
    ExecAppend(s0, [Reclaim({h})] + again, [Advance(0)]);
    ExecAppend(IDLE, BytesGoneRun(ns, h, draft), MarkedGoneRun(ns, h, draft));
  }
}
