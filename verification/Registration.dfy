/** Concurrent registrations, one step per lock, await or registry call. Any number of calls are in
    flight, for the same or different namespaces, and any step of any of them may come next. */
module Registration {
  import opened Bytes
  import opened Ids

  /** One call of `register`. */
  datatype Pid = Pid(id: nat)

  /** Where a call of `register` stands. */
  datatype Pc =
    | Started    // ticket parsed, waiting for the handle map
    | Locked     // holds the handle map
    | Imported   // holds the handle map, has imported, has not joined the swarm
    | Joined     // has a document handle, has let go of the map
    | Spawning   // was first to register the namespace, has not spawned the watcher
    | Done
    | Failed

  datatype Call = Call(ns: NamespaceId, pc: Pc)

  datatype System = System(
    calls: map<Pid, Call>,
    lock: Option<Pid>,
    handles: set<NamespaceId>,
    known: set<NamespaceId>,
    imports: multiset<NamespaceId>,   // that succeeded, whatever came of the join
    joinFails: multiset<NamespaceId>,
    watchers: multiset<NamespaceId>)

  const INITIAL := System(map[], None, {}, {}, multiset{}, multiset{}, multiset{})

  datatype Event =
    | Begin(pid: Pid, ns: NamespaceId)
    | Acquire(pid: Pid)
    | Reuse(pid: Pid)
    | Import(pid: Pid, ok: bool)
    | StartSync(pid: Pid, ok: bool)
    | RegisterNamespace(pid: Pid)
    | SpawnWatch(pid: Pid)

  predicate AtPc(s: System, pid: Pid, pc: Pc) {
    pid in s.calls && s.calls[pid].pc == pc
  }

  predicate CanHappen(s: System, e: Event) {
    match e
    case Begin(pid, ns) => pid !in s.calls
    case Acquire(pid) => AtPc(s, pid, Started) && s.lock.None?
    case Reuse(pid) => AtPc(s, pid, Locked) && s.calls[pid].ns in s.handles
    case Import(pid, ok) => AtPc(s, pid, Locked) && s.calls[pid].ns !in s.handles
    case StartSync(pid, ok) => AtPc(s, pid, Imported)
    case RegisterNamespace(pid) => AtPc(s, pid, Joined)
    case SpawnWatch(pid) => AtPc(s, pid, Spawning)
  }

  function Move(s: System, pid: Pid, pc: Pc): map<Pid, Call>
    requires pid in s.calls
  {
    s.calls[pid := s.calls[pid].(pc := pc)]
  }

  function After(s: System, e: Event): System {
    if !CanHappen(s, e) then s else
    match e
    case Begin(pid, ns) => s.(calls := s.calls[pid := Call(ns, Started)])
    case Acquire(pid) => s.(calls := Move(s, pid, Locked), lock := Some(pid))
    case Reuse(pid) => s.(calls := Move(s, pid, Joined), lock := None)
    case Import(pid, ok) =>
      if ok then s.(calls := Move(s, pid, Imported), imports := s.imports + multiset{s.calls[pid].ns})
      else s.(calls := Move(s, pid, Failed), lock := None)
    case StartSync(pid, ok) =>
      var ns := s.calls[pid].ns;
      if ok then s.(calls := Move(s, pid, Joined), lock := None, handles := s.handles + {ns})
      else s.(calls := Move(s, pid, Failed), lock := None, joinFails := s.joinFails + multiset{ns})
    case RegisterNamespace(pid) =>
      var ns := s.calls[pid].ns;
      s.(calls := Move(s, pid, if ns in s.known then Done else Spawning), known := s.known + {ns})
    case SpawnWatch(pid) =>
      s.(calls := Move(s, pid, Done), watchers := s.watchers + multiset{s.calls[pid].ns})
  }

  /** The system after the events; one that cannot happen where it stands changes nothing. */
  function Reached(events: seq<Event>): System {
    if events == [] then INITIAL else After(Reached(events[..|events| - 1]), events[|events| - 1])
  }

  /** The calls inside the critical section. */
  predicate Inside(s: System, pid: Pid) {
    AtPc(s, pid, Locked) || AtPc(s, pid, Imported)
  }

  /** The call that holds the map has imported `ns` and not yet joined it. */
  predicate Joining(s: System, ns: NamespaceId) {
    s.lock.Some? && s.lock.value in s.calls && s.calls[s.lock.value] == Call(ns, Imported)
  }

  function One(b: bool): nat {
    if b then 1 else 0
  }

  predicate IsSpawning(s: System, pid: Pid, ns: NamespaceId) {
    pid in s.calls && s.calls[pid] == Call(ns, Spawning)
  }

  ghost predicate LockInv(s: System) {
    && (forall p :: Inside(s, p) <==> s.lock == Some(p))
    && (forall p :: AtPc(s, p, Imported) ==> s.calls[p].ns !in s.handles)
  }

  /** Every import has led to the handle, to a failed join, or to the join now under way. */
  ghost predicate ImportInv(s: System) {
    forall ns :: s.imports[ns] == One(ns in s.handles) + s.joinFails[ns] + One(Joining(s, ns))
  }

  ghost predicate KnownInv(s: System) {
    && s.known <= s.handles
    && (forall p :: AtPc(s, p, Joined) ==> s.calls[p].ns in s.handles)
    && (forall p :: AtPc(s, p, Done) || AtPc(s, p, Spawning) ==> s.calls[p].ns in s.known)
  }

  /** For each namespace: no watcher and nobody about to spawn one while it is unknown; from then on
      either its one watcher, or the one call that is about to spawn it. */
  ghost predicate WatchInv(s: System) {
    && (forall ns :: ns !in s.known ==> s.watchers[ns] == 0)
    && (forall ns :: s.watchers[ns] <= 1)
    && (forall p, ns :: IsSpawning(s, p, ns) ==> s.watchers[ns] == 0)
    && (forall p, q, ns :: IsSpawning(s, p, ns) && IsSpawning(s, q, ns) ==> p == q)
    && (forall ns :: ns in s.known && s.watchers[ns] == 0 ==> exists p :: IsSpawning(s, p, ns))
  }

  lemma LockStep(s: System, e: Event)
    requires LockInv(s)
    ensures LockInv(After(s, e))
  {
    var t := After(s, e);
    forall p ensures Inside(t, p) <==> t.lock == Some(p) {
      assert Inside(s, p) <==> s.lock == Some(p);
      assert Inside(s, e.pid) <==> s.lock == Some(e.pid);
    }
    forall p | AtPc(t, p, Imported) ensures t.calls[p].ns !in t.handles {
      assert p != e.pid ==> AtPc(s, p, Imported) && Inside(s, p);
      assert Inside(s, e.pid) <==> s.lock == Some(e.pid);
    }
  }

  /** Only the call that holds the map changes who is joining. */
  lemma JoiningStep(s: System, e: Event, ns: NamespaceId)
    requires LockInv(s) && CanHappen(s, e)
    ensures Joining(After(s, e), ns) <==>
      if e.Import? then e.ok && s.calls[e.pid].ns == ns
      else Joining(s, ns) && !e.StartSync?
    ensures e.StartSync? ==> (Joining(s, ns) <==> s.calls[e.pid].ns == ns)
    ensures e.Import? ==> !Joining(s, ns)
  {
    assert Inside(s, e.pid) <==> s.lock == Some(e.pid);
  }

  lemma ImportStep(s: System, e: Event)
    requires LockInv(s) && ImportInv(s)
    ensures ImportInv(After(s, e))
  {
    if CanHappen(s, e) {
      var t := After(s, e);
      forall ns ensures t.imports[ns] == One(ns in t.handles) + t.joinFails[ns] + One(Joining(t, ns)) {
        JoiningStep(s, e, ns);
        if e.StartSync? || e.Import? {
          assert AtPc(s, e.pid, Imported) ==> s.calls[e.pid].ns !in s.handles;
        }
      }
    }
  }

  lemma KnownStep(s: System, e: Event)
    requires KnownInv(s)
    ensures KnownInv(After(s, e))
  {
    var t := After(s, e);
    forall p | p != e.pid && p in t.calls ensures p in s.calls && t.calls[p] == s.calls[p] {}
    assert s.known <= t.known && s.handles <= t.handles;
    forall p | p in t.calls ensures (t.calls[p].pc == Joined ==> t.calls[p].ns in t.handles)
      && (t.calls[p].pc == Done || t.calls[p].pc == Spawning ==> t.calls[p].ns in t.known)
    {
      assert p != e.pid ==> (AtPc(s, p, Joined) <==> AtPc(t, p, Joined));
      assert p != e.pid ==> (AtPc(s, p, Done) <==> AtPc(t, p, Done));
      assert p != e.pid ==> (AtPc(s, p, Spawning) <==> AtPc(t, p, Spawning));
    }
  }

  /** Nothing but a first registration and a spawn touches who is to spawn or who watches. */
  lemma OtherEventsKeepWatch(s: System, e: Event)
    requires WatchInv(s) && CanHappen(s, e) && !e.RegisterNamespace? && !e.SpawnWatch?
    ensures WatchInv(After(s, e))
  {
    var t := After(s, e);
    forall p, ns ensures IsSpawning(t, p, ns) <==> IsSpawning(s, p, ns) {}
    assert t.known == s.known && t.watchers == s.watchers;
    hide After, IsSpawning, CanHappen;
  }

  lemma RegisterKeepsWatch(s: System, e: Event)
    requires KnownInv(s) && WatchInv(s) && CanHappen(s, e) && e.RegisterNamespace?
    ensures WatchInv(After(s, e))
  {
    var t, mine := After(s, e), s.calls[e.pid].ns;
    forall p, ns ensures IsSpawning(t, p, ns) <==>
      IsSpawning(s, p, ns) || (p == e.pid && ns == mine && mine !in s.known) {}
    forall p, ns | IsSpawning(s, p, ns) ensures ns in s.known {
      assert AtPc(s, p, Spawning);
    }
    forall ns | ns in t.known && t.watchers[ns] == 0 ensures exists p :: IsSpawning(t, p, ns) {
      if ns in s.known {
        var p :| IsSpawning(s, p, ns);
        assert IsSpawning(t, p, ns);
      } else {
        assert IsSpawning(t, e.pid, ns);
      }
    }
  }

  lemma SpawnKeepsWatch(s: System, e: Event)
    requires KnownInv(s) && WatchInv(s) && CanHappen(s, e) && e.SpawnWatch?
    ensures WatchInv(After(s, e))
  {
    var t, mine := After(s, e), s.calls[e.pid].ns;
    assert IsSpawning(s, e.pid, mine) && AtPc(s, e.pid, Spawning);
    forall p, ns ensures IsSpawning(t, p, ns) <==> IsSpawning(s, p, ns) && p != e.pid {}
    forall ns ensures t.watchers[ns] == s.watchers[ns] + if ns == mine then 1 else 0 {}
    forall ns | ns in t.known && t.watchers[ns] == 0 ensures exists p :: IsSpawning(t, p, ns) {
      var p :| IsSpawning(s, p, ns);
      assert IsSpawning(t, p, ns);
    }
  }

  lemma WatchStep(s: System, e: Event)
    requires KnownInv(s) && WatchInv(s)
    ensures WatchInv(After(s, e))
  {
    if CanHappen(s, e) {
      match e
      case RegisterNamespace(_) => RegisterKeepsWatch(s, e);
      case SpawnWatch(_) => SpawnKeepsWatch(s, e);
      case _ => OtherEventsKeepWatch(s, e);
    }
  }

  lemma {:induction false} EveryInterleavingKeepsInv(events: seq<Event>)
    ensures LockInv(Reached(events)) && ImportInv(Reached(events))
    ensures KnownInv(Reached(events)) && WatchInv(Reached(events))
  {
    if events != [] {
      var front, last := events[..|events| - 1], events[|events| - 1];
      EveryInterleavingKeepsInv(front);
      LockStep(Reached(front), last);
      ImportStep(Reached(front), last);
      KnownStep(Reached(front), last);
      WatchStep(Reached(front), last);
    }
  }

  /** In every interleaving: at most one call is inside the critical section; each namespace gets at
      most one watcher; every known namespace has a handle; and once no call is between registering
      and spawning, every known namespace has its watcher. */
  lemma RegistrationIsOnce(events: seq<Event>)
    ensures var s := Reached(events);
            && (forall p, q :: Inside(s, p) && Inside(s, q) ==> p == q)
            && (forall ns :: s.watchers[ns] <= 1)
            && s.known <= s.handles
            && (forall p :: AtPc(s, p, Done) ==> s.calls[p].ns in s.known)
            && ((forall p :: !AtPc(s, p, Spawning)) ==> forall ns :: ns in s.known ==> s.watchers[ns] == 1)
  {
    EveryInterleavingKeepsInv(events);
    var s := Reached(events);
    if forall p :: !AtPc(s, p, Spawning) {
      forall ns | ns in s.known ensures s.watchers[ns] == 1 {
        forall p ensures !IsSpawning(s, p, ns) { assert !AtPc(s, p, Spawning); }
      }
    }
  }

  /** In every interleaving a namespace's successful imports number its handle, its failed joins, and
      the join under way, if there is one. So it is imported at most once if and only if no join has
      failed, or one has and nobody has imported it since. */
  lemma ImportsExactly(events: seq<Event>, ns: NamespaceId)
    ensures var s := Reached(events);
            var joining := exists p :: p in s.calls && s.calls[p] == Call(ns, Imported);
            && s.imports[ns] == One(ns in s.handles) + s.joinFails[ns] + One(joining)
            && (s.imports[ns] <= 1 <==>
                  s.joinFails[ns] == 0 || (s.joinFails[ns] == 1 && ns !in s.handles && !joining))
  {
    EveryInterleavingKeepsInv(events);
    var s := Reached(events);
    forall p | p in s.calls && s.calls[p] == Call(ns, Imported)
      ensures s.lock == Some(p) && ns !in s.handles
    {
      assert AtPc(s, p, Imported) && Inside(s, p);
    }
  }

  lemma ReachedSnoc(events: seq<Event>, e: Event)
    ensures Reached(events + [e]) == After(Reached(events), e)
  {
    assert (events + [e])[..|events|] == events;
  }

  lemma ReachedFour(events: seq<Event>, a: Event, b: Event, c: Event, d: Event)
    ensures Reached(events + [a, b, c, d]) == After(After(After(After(Reached(events), a), b), c), d)
  {
    hide Reached, After;
    ReachedSnoc(events, a);
    ReachedSnoc(events + [a], b);
    ReachedSnoc(events + [a] + [b], c);
    ReachedSnoc(events + [a] + [b] + [c], d);
    assert events + [a, b, c, d] == events + [a] + [b] + [c] + [d];
  }

  /** A call for a namespace without a handle, up to its attempt to join. */
  function ImportingCall(p: Pid, ns: NamespaceId, joins: bool): seq<Event> {
    [Begin(p, ns), Acquire(p), Import(p, true), StartSync(p, joins)]
  }

  function Holding(s: System, p: Pid, ns: NamespaceId, pc: Pc): System {
    s.(calls := s.calls[p := Call(ns, pc)], lock := Some(p))
  }

  lemma CallTakesMap(s: System, p: Pid, ns: NamespaceId)
    requires p !in s.calls && s.lock.None?
    ensures After(After(s, Begin(p, ns)), Acquire(p)) == Holding(s, p, ns, Locked)
  {
    var begun := s.(calls := s.calls[p := Call(ns, Started)]);
    assert After(s, Begin(p, ns)) == begun;
    assert Move(begun, p, Locked) == s.calls[p := Call(ns, Locked)];
  }

  lemma CallImports(s: System, p: Pid, ns: NamespaceId)
    requires ns !in s.handles
    ensures After(Holding(s, p, ns, Locked), Import(p, true))
         == Holding(s, p, ns, Imported).(imports := s.imports + multiset{ns})
  {
    assert Move(Holding(s, p, ns, Locked), p, Imported) == s.calls[p := Call(ns, Imported)];
  }

  lemma CallJoins(s: System, p: Pid, ns: NamespaceId, joins: bool)
    requires ns !in s.handles
    ensures var t := After(Holding(s, p, ns, Imported).(imports := s.imports + multiset{ns}), StartSync(p, joins));
            && t.lock.None? && t.calls.Keys == s.calls.Keys + {p}
            && t.imports == s.imports + multiset{ns}
            && t.joinFails == (if joins then s.joinFails else s.joinFails + multiset{ns})
            && t.handles == (if joins then s.handles + {ns} else s.handles)
  {
  }

  lemma ImportsOnceMore(events: seq<Event>, p: Pid, ns: NamespaceId, joins: bool)
    requires var s := Reached(events); p !in s.calls && s.lock.None? && ns !in s.handles
    ensures var s, t := Reached(events), Reached(events + ImportingCall(p, ns, joins));
            && t.lock.None? && t.calls.Keys == s.calls.Keys + {p}
            && t.imports == s.imports + multiset{ns}
            && t.joinFails == (if joins then s.joinFails else s.joinFails + multiset{ns})
            && t.handles == (if joins then s.handles + {ns} else s.handles)
  {
    var s := Reached(events);
    CallTakesMap(s, p, ns);
    CallImports(s, p, ns);
    CallJoins(s, p, ns, joins);
    hide Reached, After, Holding;
    ReachedFour(events, Begin(p, ns), Acquire(p), Import(p, true), StartSync(p, joins));
  }

  /** The first call imports and fails to join; the second imports the same namespace again. */
  lemma SecondImportHappens(p: Pid, q: Pid, ns: NamespaceId)
    requires p != q
    ensures var s := Reached(ImportingCall(p, ns, false) + ImportingCall(q, ns, true));
            s.imports[ns] == 2 && s.joinFails[ns] == 1 && s.handles == {ns}
  {
    assert [] + ImportingCall(p, ns, false) == ImportingCall(p, ns, false);
    ImportsOnceMore([], p, ns, false);
    ImportsOnceMore(ImportingCall(p, ns, false), q, ns, true);
  }

  // ---------------------------------------------------------------------------------------------
  // One call by itself, and progress
  // ---------------------------------------------------------------------------------------------

  /** The end of a call that has a handle: the namespace is known, and the call that made it so spawns
      its watcher. */
  lemma CallRegisters(s: System, p: Pid, ns: NamespaceId)
    requires p in s.calls && s.calls[p] == Call(ns, Joined)
    ensures var t := After(s, RegisterNamespace(p));
            && t == s.(calls := s.calls[p := Call(ns, if ns in s.known then Done else Spawning)], known := s.known + {ns})
            && (ns !in s.known ==>
                  After(t, SpawnWatch(p))
                  == t.(calls := s.calls[p := Call(ns, Done)], watchers := s.watchers + multiset{ns}))
  {
    var t := After(s, RegisterNamespace(p));
    if ns !in s.known {
      assert t.calls[p := Call(ns, Done)] == s.calls[p := Call(ns, Done)];
    }
  }

  /** A call that finds the map free gets a handle: the one that is there, or else, when import and
      join succeed, its own. */
  lemma CallGetsHandle(s: System, p: Pid, ns: NamespaceId)
    requires p !in s.calls && s.lock.None?
    ensures var held := After(After(s, Begin(p, ns)), Acquire(p));
            && (ns in s.handles ==>
                  After(held, Reuse(p)) == s.(calls := s.calls[p := Call(ns, Joined)]))
            && (ns !in s.handles ==>
                  After(After(held, Import(p, true)), StartSync(p, true))
                  == s.(calls := s.calls[p := Call(ns, Joined)], handles := s.handles + {ns},
                        imports := s.imports + multiset{ns}))
  {
    CallTakesMap(s, p, ns);
    var held := Holding(s, p, ns, Locked);
    assert Move(held, p, Joined) == s.calls[p := Call(ns, Joined)];
    if ns !in s.handles {
      CallImports(s, p, ns);
      var imported := Holding(s, p, ns, Imported).(imports := s.imports + multiset{ns});
      assert Move(imported, p, Joined) == s.calls[p := Call(ns, Joined)];
    }
  }

  /** Event `k` happens, and is the failure of `p`'s import or of its join. */
  ghost predicate FailsAt(events: seq<Event>, k: nat, p: Pid)
    requires k < |events|
  {
    CanHappen(Reached(events[..k]), events[k]) && (events[k] == Import(p, false) || events[k] == StartSync(p, false))
  }

  /** In every interleaving a call fails only by its own import or its own join failing. */
  lemma {:induction false} FailsExactly(events: seq<Event>, p: Pid)
    ensures AtPc(Reached(events), p, Failed) <==> exists k: nat :: k < |events| && FailsAt(events, k, p)
  {
    if events == [] {
      assert !AtPc(INITIAL, p, Failed);
    } else {
      var n := |events| - 1;
      var front := events[..n];
      FailsExactly(front, p);
      FailedStep(Reached(front), events[n], p);
      assert Reached(events) == After(Reached(front), events[n]);
      hide Reached, After, CanHappen, AtPc, FailsAt;
      FailsAtLast(events, p);
      forall k: nat | k < n ensures FailsAt(front, k, p) <==> FailsAt(events, k, p) {
        FailsAtPrefix(events, k, p);
      }
      FailsSnoc(events, front, p);
    }
  }

  lemma FailsAtLast(events: seq<Event>, p: Pid)
    requires events != []
    ensures var n := |events| - 1;
            FailsAt(events, n, p) <==>
            && CanHappen(Reached(events[..n]), events[n])
            && (events[n] == Import(p, false) || events[n] == StartSync(p, false))
  {
  }

  lemma FailsAtPrefix(events: seq<Event>, k: nat, p: Pid)
    requires k < |events| - 1
    ensures FailsAt(events[..|events| - 1], k, p) <==> FailsAt(events, k, p)
  {
    assert events[..|events| - 1][..k] == events[..k];
  }

  lemma FailsSnoc(events: seq<Event>, front: seq<Event>, p: Pid)
    requires |events| == |front| + 1
    requires forall k: nat :: k < |front| ==> (FailsAt(front, k, p) <==> FailsAt(events, k, p))
    ensures (exists k: nat :: k < |events| && FailsAt(events, k, p)) <==>
            || (exists k: nat :: k < |front| && FailsAt(front, k, p))
            || FailsAt(events, |front|, p)
  {
    hide FailsAt;
    if k: nat :| k < |events| && FailsAt(events, k, p) {
      assert k == |front| || FailsAt(front, k, p);
    }
    if k: nat :| k < |front| && FailsAt(front, k, p) {
      assert FailsAt(events, k, p);
    }
  }

  lemma FailedStep(s: System, e: Event, p: Pid)
    ensures AtPc(After(s, e), p, Failed) <==>
      AtPc(s, p, Failed) || (CanHappen(s, e) && (e == Import(p, false) || e == StartSync(p, false)))
  {
  }

  /** No interleaving gets stuck: while a call is under way, it can go on, or the call that holds the
      map can. */
  lemma SomeoneCanGoOn(events: seq<Event>, p: Pid)
    requires var s := Reached(events);
             p in s.calls && s.calls[p].pc != Done && s.calls[p].pc != Failed
    ensures var s := Reached(events);
            exists e ::
              && CanHappen(s, e) && (e.pid == p || s.lock == Some(e.pid))
              && e.pid in s.calls && e.pid in After(s, e).calls
              && After(s, e).calls[e.pid].pc != s.calls[e.pid].pc
  {
    EveryInterleavingKeepsInv(events);
    var s := Reached(events);
    var q := if s.calls[p].pc == Started && s.lock.Some? then s.lock.value else p;
    assert Inside(s, q) <==> s.lock == Some(q);
    var e := match s.calls[q].pc
      case Started => Acquire(q)
      case Locked => if s.calls[q].ns in s.handles then Reuse(q) else Import(q, true)
      case Imported => StartSync(q, true)
      case Joined => RegisterNamespace(q)
      case _ => SpawnWatch(q);
    assert CanHappen(s, e) && e.pid == q;
  }
}
