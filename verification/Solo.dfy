/** The two granularities agree: a handler that nobody interrupts does, lock by lock, what it does as
    one step. Other handlers may be waiting between their locks meanwhile. */
module Solo {
  import opened Bytes
  import opened Ids
  import opened Content
  import opened Stash
  import Node
  import opened Interleaving
  import opened Windows

  /** What the locks guard, of a state. */
  function LocksOf(m: StashState): Locks {
    Locks(m.index, m.tracked, m.blobs.Keys)
  }

  /** An arrival. */
  lemma ArrivalAlone(
    sys: System, m: StashState, pid: Pid, ns: NamespaceId, entry: DocEntry, from: EndpointId, nowMs: nat)
    requires pid !in sys.flows && sys.locks == LocksOf(m)
    ensures var flow := Arriving(ns, entry.hash, NewEntry(ns, entry, from, nowMs, false));
            var events := Opening(pid, flow) + Twice(pid) + if entry.hash in m.blobs then [Advance(pid)] else [];
            && Allowed(sys, events)
            && Exec(sys, events) == System(LocksOf(Arrived(m, ns, entry, from, nowMs)), sys.flows[pid := Flow.Finished])
  {
    hide Exec, Allowed, WithReference, DecodeAuthorSeq;
    var h, draft := entry.hash, NewEntry(ns, entry, from, nowMs, false);
    var present := h in m.blobs;
    Arrives(sys, pid, ns, h, draft);
    assert Drafted(draft, present) == NewEntry(ns, entry, from, nowMs, present);
    var events := Opening(pid, Arriving(ns, h, draft)) + Twice(pid);
    if present {
      var mid := Exec(sys, events);
      OneEvent(mid, Advance(pid));
      ExecAppend(sys, events, [Advance(pid)]);
      assert sys.flows[pid := Marking(h)][pid := Flow.Finished] == sys.flows[pid := Flow.Finished];
    } else {
      assert events + [] == events;
    }
  }

  /** One round of a pass. */
  lemma RoundAlone(sys: System, m: StashState, pid: Pid, nowMs: nat, downloads: Downloads, h: ContentHash)
    requires pid !in sys.flows && sys.locks == LocksOf(m) && h in m.tracked
    ensures var events := Opening(pid, Checking(h, m.tracked[h], nowMs, h in downloads)) + [Advance(pid)];
            && Allowed(sys, events)
            && Exec(sys, events) == System(LocksOf(SettledOn(m, nowMs, downloads, {h})), sys.flows[pid := Flow.Finished])
  {
    hide Exec, Allowed, SettledOn;
    var flow := Checking(h, m.tracked[h], nowMs, h in downloads);
    Opens(sys, pid, flow);
    var mid := Exec(sys, Opening(pid, flow));
    OneEvent(mid, Advance(pid));
    ExecAppend(sys, Opening(pid, flow), [Advance(pid)]);
    Node.SettledOnSingle(m, nowMs, downloads, h);
    hide UpdatedEntry, WithPresent;
    assert sys.flows[pid := Resumes(flow, sys.locks)][pid := Flow.Finished] == sys.flows[pid := Flow.Finished];
  }

  lemma Offers(sys: System, pid: Pid, ns: NamespaceId, h: ContentHash)
    requires pid !in sys.flows
    ensures Allowed(sys, Opening(pid, Offering(ns, h)))
    ensures Exec(sys, Opening(pid, Offering(ns, h)))
         == System(sys.locks, sys.flows[pid := if TrackedFor(sys.locks.index, ns, h) then Storing(h) else Flow.Finished])
  {
    Opens(sys, pid, Offering(ns, h));
  }

  lemma StoresAndMarks(sys: System, pid: Pid, h: ContentHash)
    requires pid in sys.flows && sys.flows[pid] == Storing(h)
    ensures Allowed(sys, Twice(pid))
    ensures Exec(sys, Twice(pid))
         == System(Locks(WithPresent(sys.locks.index, h), sys.locks.ledger, sys.locks.stored + {h}),
                   sys.flows[pid := Flow.Finished])
  {
    ExecTwo(sys, Advance(pid), Advance(pid));
    hide Exec, Allowed, WithPresent;
    assert sys.flows[pid := Marking(h)][pid := Flow.Finished] == sys.flows[pid := Flow.Finished];
  }

  /** An upload of the right bytes to a known namespace that names them; one to a namespace that does
      not stops at its first question. */
  lemma UploadAlone(
    cfg: Config, sys: System, m: StashState, pid: Pid, ns: NamespaceId, h: ContentHash, bytes: seq<byte>)
    requires pid !in sys.flows && sys.locks == LocksOf(m) && ns in m.known && cfg.digest(bytes) == h
    ensures var events := Opening(pid, Offering(ns, h)) + if TrackedFor(m.index, ns, h) then Twice(pid) else [];
            && Allowed(sys, events)
            && Exec(sys, events) == System(LocksOf(Uploaded(cfg, m, ns, h, bytes)), sys.flows[pid := Flow.Finished])
  {
    UploadedLocks(cfg, m, ns, h, bytes);
    hide Exec, Allowed, Uploaded;
    Offers(sys, pid, ns, h);
    if TrackedFor(m.index, ns, h) {
      OfferTaken(sys, pid, ns, h);
    } else {
      assert Opening(pid, Offering(ns, h)) + [] == Opening(pid, Offering(ns, h));
    }
  }

  lemma OfferTaken(sys: System, pid: Pid, ns: NamespaceId, h: ContentHash)
    requires pid !in sys.flows && TrackedFor(sys.locks.index, ns, h)
    ensures var events := Opening(pid, Offering(ns, h)) + Twice(pid);
            && Allowed(sys, events)
            && Exec(sys, events)
               == System(Locks(WithPresent(sys.locks.index, h), sys.locks.ledger, sys.locks.stored + {h}),
                         sys.flows[pid := Flow.Finished])
  {
    hide Exec, Allowed, TrackedFor;
    Offers(sys, pid, ns, h);
    var mid := System(sys.locks, sys.flows[pid := Storing(h)]);
    StoresAndMarks(mid, pid, h);
    ExecAppend(sys, Opening(pid, Offering(ns, h)), Twice(pid));
    assert mid.flows[pid := Flow.Finished] == sys.flows[pid := Flow.Finished];
  }

  lemma UploadedLocks(cfg: Config, m: StashState, ns: NamespaceId, h: ContentHash, bytes: seq<byte>)
    requires ns in m.known && cfg.digest(bytes) == h
    ensures LocksOf(Uploaded(cfg, m, ns, h, bytes)) ==
      if TrackedFor(m.index, ns, h) then Locks(WithPresent(m.index, h), m.tracked, m.blobs.Keys + {h}) else LocksOf(m)
  {
  }

  /** A sweep's forget of one hash. */
  lemma ForgetAlone(sys: System, m: StashState, pid: Pid, ns: NamespaceId, h: ContentHash)
    requires pid !in sys.flows && sys.locks == LocksOf(m) && WellFormed(m.index)
    ensures var last := DropsLast(sys.locks, ns, h);
            var events := Opening(pid, Forgetting(ns, h)) + if last then [Advance(pid)] else [];
            && Allowed(sys, events)
            && Exec(sys, events) == System(LocksOf(Dropped(m, map[ns := {h}])), sys.flows[pid := Flow.Finished])
  {
    hide Exec, Allowed, Release, WellFormed;
    var opening, last := Opening(pid, Forgetting(ns, h)), DropsLast(sys.locks, ns, h);
    Opens(sys, pid, Forgetting(ns, h));
    OnlyForgottenGoes(m, ns, h);
    if last {
      var mid := Exec(sys, opening);
      OneEvent(mid, Advance(pid));
      ExecAppend(sys, opening, [Advance(pid)]);
      assert sys.flows[pid := Removing(h)][pid := Flow.Finished] == sys.flows[pid := Flow.Finished];
    } else {
      assert opening + [] == opening;
    }
  }

  lemma OnlyForgottenGoes(m: StashState, ns: NamespaceId, h: ContentHash)
    requires WellFormed(m.index)
    ensures var after := Release(m.index, map[ns := {h}]);
            Dropped(m, map[ns := {h}]).tracked
            == if h in m.index.state && h !in after.state then m.tracked - {h} else m.tracked
  {
    var after := Release(m.index, map[ns := {h}]);
    forall x | x in m.index.state && x != h ensures x in after.state {
      ForgetSparesOthers(m.index, ns, h, x);
    }
  }
}
