/** What each handler does for a reader. */
module Delivery {
  import opened Bytes
  import opened Ids
  import opened Content
  import opened Stash
  import opened Protocol
  import opened Node

  /** An arrival makes the namespace name the hash and puts it on the ledger; the namespace is then
      served exactly when the store already has the bytes, and nothing changes for any other
      namespace or hash that was servable. */
  lemma ArrivalIsAccounted(
    cfg: Config, m: StashState, ns: NamespaceId, entry: DocEntry, from: EndpointId, nowMs: nat,
    other: NamespaceId, h: ContentHash)
    requires Inv(cfg, m)
    ensures var after := Arrived(m, ns, entry, from, nowMs);
            && TrackedFor(after.index, ns, entry.hash) && entry.hash in after.tracked
            && (Served(after, ns, entry.hash).Some? <==> entry.hash in m.blobs)
            && (Served(m, other, h).Some? ==> Served(after, other, h) == Served(m, other, h))
  {
  }

  /** An upload of the right bytes by a known namespace that names them is served at once to every
      namespace that does, under its own address; any other changes nothing. */
  lemma UploadIsServed(cfg: Config, m: StashState, ns: NamespaceId, expected: ContentHash, bytes: seq<byte>, reader: NamespaceId)
    requires Inv(cfg, m)
    ensures var after := Uploaded(cfg, m, ns, expected, bytes);
            if ns in m.known && TrackedFor(m.index, ns, expected) && cfg.digest(bytes) == expected then
              && (TrackedFor(m.index, reader, expected) ==>
                    Served(after, reader, expected)
                    == Some(if expected in m.blobs then m.blobs[expected] else bytes))
              && expected !in Missing(after.index)
            else after == m
  {
  }

  /** After a settle pass a namespace is served a hash it names exactly when the bytes were in the
      store, or the retry was due and the download succeeded; and it is served those bytes. */
  lemma PassServesWhatItCan(cfg: Config, m: StashState, nowMs: nat, downloads: Downloads, ns: NamespaceId, h: ContentHash)
    requires Inv(cfg, m) && TrackedFor(m.index, ns, h)
    ensures h in m.tracked
    ensures var after := Settled(m, nowMs, downloads);
            Served(after, ns, h) ==
            if h in m.blobs then Some(m.blobs[h])
            else if nowMs >= m.tracked[h].nextAttemptMs && h in downloads then Some(downloads[h])
            else None
  {
  }

  /** The health number read right after a pass is the number of referenced hashes whose bytes the
      store does not hold. */
  method HealthAfterPass(node: StashNode, nowMs: nat, downloads: Downloads) returns (missing: nat)
    requires node.Valid() && Inv(node.cfg, node.Model())
    requires forall h :: h in downloads ==> node.cfg.digest(downloads[h]) == h
    modifies node, node.content
    ensures missing == |set h | h in node.content.state && h !in node.blobs|
  {
    ghost var before := node.Model();
    var wakes := node.SettleOnce(nowMs, downloads);
    SettleCountsExactly(node.cfg, before, nowMs, downloads);
    var total;
    missing, total := node.ContentStats();
  }

  lemma SweepStep(cfg: Config, m: StashState, docs: Listing, visited: set<NamespaceId>, nowMs: nat)
    requires visited <= Visitable(m) * docs.Keys
    ensures Enabled(cfg, m, Sweep(docs, visited, nowMs))
    ensures Next(cfg, m, Sweep(docs, visited, nowMs)) == Swept(cfg, m, docs, visited, nowMs)
  {
    hide Visitable, Swept;
  }

  method HandleSweep(node: StashNode, docs: Listing, nowMs: nat) returns (ghost done: Step)
    requires node.Valid()
    modifies node, node.content
    ensures node.Valid() && done.Sweep? && done.docs == docs && done.nowMs == nowMs
    ensures Enabled(node.cfg, old(node.Model()), done)
    ensures node.Model() == Next(node.cfg, old(node.Model()), done)
  {
    hide Swept, Visitable, Enabled, Next;
    ghost var before := node.Model();
    var _, visited := node.PruneOnce(docs, nowMs);
    done := Sweep(docs, visited, nowMs);
    SweepStep(node.cfg, before, docs, visited, nowMs);
  }

  /** The node takes exactly the steps a run is made of: every handler turns the state it finds into
      the next state of a legal step, and so keeps the invariant. Only a sweep says for itself which
      namespaces it got to. */
  method Handle(node: StashNode, step: Step) returns (ghost done: Step)
    requires node.Valid() && Inv(node.cfg, node.Model()) && Enabled(node.cfg, node.Model(), step)
    requires !step.BlobAppears? && !step.Collect?
    modifies node, node.content, node.registry
    ensures node.Valid() && Enabled(node.cfg, old(node.Model()), done)
    ensures if step.Sweep? then done.Sweep? && done.docs == step.docs && done.nowMs == step.nowMs else done == step
    ensures node.Model() == Next(node.cfg, old(node.Model()), done)
    ensures Inv(node.cfg, node.Model())
  {
    hide Inv, Arrived, Settled, Uploaded, Swept;
    ghost var before := node.Model();
    done := step;
    match step {
      case Arrive(ns, entry, from, nowMs) =>
        var _ := node.Watch(ns, entry, from, nowMs);
      case Settle(nowMs, downloads) =>
        var _ := node.SettleOnce(nowMs, downloads);
      case Put(ns, expected, bytes) =>
        var _ := node.PutContent(ns, expected, bytes, true);
      case Sweep(docs, _, nowMs) =>
        done := HandleSweep(node, docs, nowMs);
      case Register(ns) =>
        var _ := node.Register(ns, None, true);
      case _ =>
    }
    StepKeepsInv(node.cfg, before, done);
  }
}
