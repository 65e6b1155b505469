/** Whole runs: every order of arrivals, settle passes, uploads, sweeps, registrations, blobs that
    appear by themselves and collections. */
module Protocol {
  import opened Bytes
  import opened Ids
  import opened Content
  import opened Stash

  datatype Step =
    | Arrive(ns: NamespaceId, entry: DocEntry, from: EndpointId, nowMs: nat)
    | Settle(nowMs: nat, downloads: Downloads)
    | Put(ns: NamespaceId, expected: ContentHash, bytes: seq<byte>)
    | Sweep(docs: Listing, visited: set<NamespaceId>, nowMs: nat)
    | Register(ns: NamespaceId)
    | BlobAppears(bytes: seq<byte>)
    | Collect(victims: set<ContentHash>)

  /** What the environment may do: arrivals come from watched namespaces, downloads are verified
      against their hash, collection spares whatever `referenced` lists. A sweep that ends early has
      visited only some namespaces. */
  ghost predicate Enabled(cfg: Config, m: StashState, step: Step) {
    match step
    case Arrive(ns, _, _, _) => ns in m.known
    case Settle(_, downloads) => forall h :: h in downloads ==> cfg.digest(downloads[h]) == h
    case Sweep(docs, visited, _) => visited <= Visitable(m) && visited <= docs.Keys
    case Collect(victims) => forall h :: h in victims ==> !Named(m.index.byNamespace, h)
    case _ => true
  }

  function Next(cfg: Config, m: StashState, step: Step): StashState {
    match step
    case Arrive(ns, entry, from, nowMs) => Arrived(m, ns, entry, from, nowMs)
    case Settle(nowMs, downloads) => Settled(m, nowMs, downloads)
    case Put(ns, expected, bytes) => Uploaded(cfg, m, ns, expected, bytes)
    case Sweep(docs, visited, nowMs) => Swept(cfg, m, docs, visited, nowMs)
    case Register(ns) => m.(known := m.known + {ns}, handles := m.handles + {ns})
    case BlobAppears(bytes) => WithBlob(m, cfg.digest(bytes), bytes)
    case Collect(victims) => m.(blobs := m.blobs - victims)
  }

  function Run(cfg: Config, m: StashState, steps: seq<Step>): StashState {
    if steps == [] then m
    else Next(cfg, Run(cfg, m, steps[..|steps| - 1]), steps[|steps| - 1])
  }

  ghost predicate Legal(cfg: Config, m: StashState, steps: seq<Step>) {
    steps == [] ||
    (&& Legal(cfg, m, steps[..|steps| - 1])
     && Enabled(cfg, Run(cfg, m, steps[..|steps| - 1]), steps[|steps| - 1]))
  }

  /** Index, ledger and store agree, and every indexed namespace is within a sweep's reach. */
  ghost predicate Inv(cfg: Config, m: StashState) {
    && Coupled(m)
    && Faithful(cfg, m)
    && m.index.byNamespace.Keys <= m.known <= m.handles
  }

  lemma ArriveKeepsInv(cfg: Config, m: StashState, ns: NamespaceId, entry: DocEntry, from: EndpointId, nowMs: nat)
    requires Inv(cfg, m) && ns in m.known
    ensures Inv(cfg, Arrived(m, ns, entry, from, nowMs))
  {
    ArriveKeepsCoupled(m, ns, entry, from, nowMs);
    ArriveKeepsFaithful(cfg, m, ns, entry, from, nowMs);
    assert Arrived(m, ns, entry, from, nowMs).index.byNamespace.Keys == m.index.byNamespace.Keys + {ns};
  }

  lemma ArriveKeepsCoupled(m: StashState, ns: NamespaceId, entry: DocEntry, from: EndpointId, nowMs: nat)
    requires Coupled(m)
    ensures Coupled(Arrived(m, ns, entry, from, nowMs))
  {
    ReferenceKeepsWellFormed(m.index, ns, entry.hash);
    var wanted := WithReference(m.index, ns, entry.hash);
    SameKeysWellFormed(wanted, WithPresent(wanted, entry.hash));
    var after := Arrived(m, ns, entry, from, nowMs);
    forall h | h in after.tracked && after.tracked[h].contentPresent
      ensures IsPresent(after.index, h) && after.tracked[h].woken
    {
      ArrivedFlags(m, ns, entry, from, nowMs, h);
    }
    hide WellFormed, IsPresent;
  }

  lemma ArrivedFlags(
    m: StashState, ns: NamespaceId, entry: DocEntry, from: EndpointId, nowMs: nat, h: ContentHash)
    requires Coupled(m) && h in Arrived(m, ns, entry, from, nowMs).tracked
    requires Arrived(m, ns, entry, from, nowMs).tracked[h].contentPresent
    ensures IsPresent(Arrived(m, ns, entry, from, nowMs).index, h)
    ensures Arrived(m, ns, entry, from, nowMs).tracked[h].woken
  {
    hide WellFormed;
  }

  lemma ArriveKeepsFaithful(cfg: Config, m: StashState, ns: NamespaceId, entry: DocEntry, from: EndpointId, nowMs: nat)
    requires Faithful(cfg, m)
    ensures Faithful(cfg, Arrived(m, ns, entry, from, nowMs))
  {
  }

  lemma SettleKeepsInv(cfg: Config, m: StashState, nowMs: nat, downloads: Downloads)
    requires Inv(cfg, m) && forall h :: h in downloads ==> cfg.digest(downloads[h]) == h
    ensures Inv(cfg, Settled(m, nowMs, downloads))
  {
    SettleKeepsCoupled(m, nowMs, downloads);
    SettleKeepsFaithful(cfg, m, nowMs, downloads);
  }

  lemma SettleKeepsCoupled(m: StashState, nowMs: nat, downloads: Downloads)
    requires Coupled(m)
    ensures Coupled(Settled(m, nowMs, downloads))
  {
    var after := Settled(m, nowMs, downloads);
    SameKeysWellFormed(m.index, after.index);
    forall h | h in after.tracked && after.tracked[h].contentPresent
      ensures IsPresent(after.index, h) && after.tracked[h].woken
    {
      SettledFlags(m, nowMs, downloads, h);
    }
    hide WellFormed, SettledEntry, Ready, IsPresent;
  }

  lemma SettledFlags(m: StashState, nowMs: nat, downloads: Downloads, h: ContentHash)
    requires Coupled(m) && h in m.tracked && Settled(m, nowMs, downloads).tracked[h].contentPresent
    ensures IsPresent(Settled(m, nowMs, downloads).index, h) && Settled(m, nowMs, downloads).tracked[h].woken
  {
    hide WellFormed;
  }

  lemma SameKeysWellFormed(before: IndexState, after: IndexState)
    requires WellFormed(before)
    requires after.state.Keys == before.state.Keys && after.byNamespace == before.byNamespace
    ensures WellFormed(after)
  {
  }

  lemma SettleKeepsFaithful(cfg: Config, m: StashState, nowMs: nat, downloads: Downloads)
    requires Faithful(cfg, m) && forall h :: h in downloads ==> cfg.digest(downloads[h]) == h
    ensures Faithful(cfg, Settled(m, nowMs, downloads))
  {
  }

  lemma SweepKeepsInv(cfg: Config, m: StashState, drops: Drops)
    requires Inv(cfg, m)
    ensures Inv(cfg, Dropped(m, drops))
  {
  }

  lemma StepKeepsInv(cfg: Config, m: StashState, step: Step)
    requires Inv(cfg, m) && Enabled(cfg, m, step)
    ensures Inv(cfg, Next(cfg, m, step))
  {
    hide Inv, Arrived, Settled, Uploaded, WithBlob, Dropped, SweepPlan, Restrict;
    match step
    case Arrive(ns, entry, from, nowMs) => ArriveKeepsInv(cfg, m, ns, entry, from, nowMs);
    case Settle(nowMs, downloads) => SettleKeepsInv(cfg, m, nowMs, downloads);
    case Sweep(docs, visited, nowMs) => SweepKeepsInv(cfg, m, Restrict(SweepPlan(cfg, docs, nowMs), visited));
    case Put(ns, expected, bytes) => PutKeepsInv(cfg, m, ns, expected, bytes);
    case BlobAppears(bytes) => BlobKeepsInv(cfg, m, cfg.digest(bytes), bytes);
    case Collect(victims) => CollectKeepsInv(cfg, m, victims);
    case Register(ns) => RegisterKeepsInv(cfg, m, ns);
  }

  lemma BlobKeepsInv(cfg: Config, m: StashState, h: ContentHash, bytes: seq<byte>)
    requires Inv(cfg, m) && cfg.digest(bytes) == h
    ensures Inv(cfg, WithBlob(m, h, bytes))
  {
    hide WellFormed;
  }

  lemma PutKeepsInv(cfg: Config, m: StashState, ns: NamespaceId, expected: ContentHash, bytes: seq<byte>)
    requires Inv(cfg, m)
    ensures Inv(cfg, Uploaded(cfg, m, ns, expected, bytes))
  {
    SameKeysWellFormed(m.index, WithPresent(m.index, expected));
    hide WellFormed;
  }

  lemma RegisterKeepsInv(cfg: Config, m: StashState, ns: NamespaceId)
    requires Inv(cfg, m)
    ensures Inv(cfg, m.(known := m.known + {ns}, handles := m.handles + {ns}))
  {
    hide WellFormed;
  }

  /** Collection takes only what the index does not protect. */
  lemma CollectKeepsInv(cfg: Config, m: StashState, victims: set<ContentHash>)
    requires Inv(cfg, m) && forall h :: h in victims ==> !Named(m.index.byNamespace, h)
    ensures Inv(cfg, m.(blobs := m.blobs - victims))
  {
  }

  /** In every reachable state: the ledger and the index track the same hashes, namely those some
      namespace names; no namespace names nothing; the presence flags agree with each other and with
      the store; and every indexed namespace is known and has a handle, so no sweep passes it by. */
  lemma {:induction false} RunKeepsInv(cfg: Config, steps: seq<Step>)
    requires Legal(cfg, EMPTY, steps)
    ensures Inv(cfg, Run(cfg, EMPTY, steps))
  {
    if steps != [] {
      RunKeepsInv(cfg, steps[..|steps| - 1]);
      StepKeepsInv(cfg, Run(cfg, EMPTY, steps[..|steps| - 1]), steps[|steps| - 1]);
    }
  }

  /** In every reachable state a reader is served exactly when its namespace names the hash and the
      index calls it present, whatever was collected on the way; and what it is served has that
      content address. */
  lemma ReadsAreServed(cfg: Config, steps: seq<Step>, ns: NamespaceId, h: ContentHash)
    requires Legal(cfg, EMPTY, steps)
    ensures var m := Run(cfg, EMPTY, steps);
            && (Served(m, ns, h).Some? <==> TrackedFor(m.index, ns, h) && IsPresent(m.index, h))
            && (Served(m, ns, h).Some? ==> cfg.digest(Served(m, ns, h).value) == h)
  {
    RunKeepsInv(cfg, steps);
  }

  /** After every settle pass the missing hashes are exactly the referenced hashes the store does
      not hold. */
  lemma SettleCountsExactly(cfg: Config, m: StashState, nowMs: nat, downloads: Downloads)
    requires Inv(cfg, m) && forall h :: h in downloads ==> cfg.digest(downloads[h]) == h
    ensures var after := Settled(m, nowMs, downloads);
            Missing(after.index) == set h | h in after.index.state && h !in after.blobs
  {
  }

  /** Before a pass the count can only be too high: a hash may be in the store and not yet noticed. */
  lemma MissingCoversAbsent(cfg: Config, m: StashState)
    requires Inv(cfg, m)
    ensures (set h | h in m.index.state && h !in m.blobs) <= Missing(m.index)
  {
  }

  // ---------------------------------------------------------------------------------------------
  // Held until released
  // ---------------------------------------------------------------------------------------------

  /** The step is no sweep that found every entry of `ns` naming `h` releasable. */
  ghost predicate Spares(cfg: Config, step: Step, ns: NamespaceId, h: ContentHash) {
    step.Sweep? && ns in step.visited && ns in step.docs ==>
      h !in Releasable(step.docs[ns], cfg.retention, step.nowMs)
  }

  /** What one namespace holds: it names the hash, and once the bytes are here they stay. */
  ghost predicate Holds(m: StashState, ns: NamespaceId, h: ContentHash) {
    TrackedFor(m.index, ns, h) && h in m.tracked
  }

  lemma DropHolds(m: StashState, drops: Drops, ns: NamespaceId, h: ContentHash)
    requires WellFormed(m.index) && Holds(m, ns, h) && h !in Names(drops, ns)
    ensures Holds(Dropped(m, drops), ns, h)
    ensures Served(Dropped(m, drops), ns, h) == Served(m, ns, h)
  {
  }

  lemma StepHolds(cfg: Config, m: StashState, step: Step, ns: NamespaceId, h: ContentHash)
    requires Inv(cfg, m) && Enabled(cfg, m, step) && Holds(m, ns, h) && Spares(cfg, step, ns, h)
    ensures Holds(Next(cfg, m, step), ns, h)
    ensures Served(m, ns, h).Some? ==> Served(Next(cfg, m, step), ns, h) == Served(m, ns, h)
  {
    assert WellFormed(m.index);
    hide Inv, Arrived, Settled, Uploaded, Swept;
    match step
    case Arrive(other, entry, from, nowMs) => ArriveHolds(cfg, m, other, entry, from, nowMs, ns, h);
    case Settle(nowMs, downloads) => SettleHolds(cfg, m, nowMs, downloads, ns, h);
    case Put(other, expected, bytes) => PutHolds(cfg, m, other, expected, bytes, ns, h);
    case Sweep(docs, visited, nowMs) => SweepHolds(cfg, m, docs, visited, nowMs, ns, h);
    case Collect(victims) => CollectHolds(cfg, m, victims, ns, h);
    case _ =>
  }

  lemma SweepHolds(cfg: Config, m: StashState, docs: Listing, visited: set<NamespaceId>, nowMs: nat, ns: NamespaceId, h: ContentHash)
    requires WellFormed(m.index) && Holds(m, ns, h) && Spares(cfg, Sweep(docs, visited, nowMs), ns, h)
    ensures Holds(Swept(cfg, m, docs, visited, nowMs), ns, h)
    ensures Served(Swept(cfg, m, docs, visited, nowMs), ns, h) == Served(m, ns, h)
  {
    hide WellFormed, Dropped;
    DropHolds(m, Restrict(SweepPlan(cfg, docs, nowMs), visited), ns, h);
  }

  lemma ArriveHolds(
    cfg: Config, m: StashState, other: NamespaceId, entry: DocEntry, from: EndpointId, nowMs: nat, ns: NamespaceId, h: ContentHash)
    requires Holds(m, ns, h)
    ensures var after := Arrived(m, other, entry, from, nowMs);
            Holds(after, ns, h) && (Served(m, ns, h).Some? ==> Served(after, ns, h) == Served(m, ns, h))
  {
  }

  lemma SettleHolds(cfg: Config, m: StashState, nowMs: nat, downloads: Downloads, ns: NamespaceId, h: ContentHash)
    requires Holds(m, ns, h)
    ensures var after := Settled(m, nowMs, downloads);
            Holds(after, ns, h) && (Served(m, ns, h).Some? ==> Served(after, ns, h) == Served(m, ns, h))
  {
  }

  lemma PutHolds(
    cfg: Config, m: StashState, other: NamespaceId, expected: ContentHash, bytes: seq<byte>, ns: NamespaceId, h: ContentHash)
    requires Holds(m, ns, h)
    ensures var after := Uploaded(cfg, m, other, expected, bytes);
            Holds(after, ns, h) && (Served(m, ns, h).Some? ==> Served(after, ns, h) == Served(m, ns, h))
  {
  }

  lemma CollectHolds(cfg: Config, m: StashState, victims: set<ContentHash>, ns: NamespaceId, h: ContentHash)
    requires Holds(m, ns, h) && forall v :: v in victims ==> !Named(m.index.byNamespace, v)
    ensures var after := m.(blobs := m.blobs - victims);
            Holds(after, ns, h) && Served(after, ns, h) == Served(m, ns, h)
  {
  }

  /** From any reachable state on, a namespace that names a hash keeps naming it, the ledger keeps
      chasing it, and bytes once servable stay servable and the same, through every step but a sweep
      that finds all the namespace's entries for it releasable: no other namespace's sweep, no
      re-delivery and no collection takes them away. */
  lemma {:induction false} HeldUntilReleased(cfg: Config, m: StashState, steps: seq<Step>, ns: NamespaceId, h: ContentHash)
    requires Inv(cfg, m) && Legal(cfg, m, steps) && Holds(m, ns, h)
    requires forall k :: 0 <= k < |steps| ==> Spares(cfg, steps[k], ns, h)
    ensures Inv(cfg, Run(cfg, m, steps)) && Holds(Run(cfg, m, steps), ns, h)
    ensures Served(m, ns, h).Some? ==> Served(Run(cfg, m, steps), ns, h) == Served(m, ns, h)
  {
    if steps != [] {
      var n := |steps| - 1;
      HeldUntilReleased(cfg, m, steps[..n], ns, h);
      StepKeepsInv(cfg, Run(cfg, m, steps[..n]), steps[n]);
      StepHolds(cfg, Run(cfg, m, steps[..n]), steps[n], ns, h);
    }
  }
}
