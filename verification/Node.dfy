/** The node: the handlers, as they update the index, the ledger, the registry and the store. */
module Node {
  import opened Bytes
  import opened Ids
  import opened FixKeys
  import opened Retention
  import opened Content
  import opened Subscriptions
  import opened Stash

  /** A wake the settle pass asks for; `degraded` means the bytes are not here. */
  datatype Wake = Wake(hash: ContentHash, entry: TrackedEntry, degraded: bool)

  datatype SweepResult = Finished(released: nat) | ListingFailed

  class StashNode {
    const cfg: Config
    const content: ContentIndex
    const registry: NamespaceRegistry
    var tracked: map<ContentHash, TrackedEntry>
    var blobs: map<ContentHash, seq<byte>>
    var handles: set<NamespaceId>

    ghost predicate Valid()
      reads this, content, registry
    {
      content.Valid() && registry.Valid()
    }

    ghost function Model(): StashState
      reads this, content, registry
    {
      StashState(content.Value(), tracked, blobs, registry.known, handles)
    }

    constructor (cfg: Config)
      ensures Valid() && Model() == EMPTY && this.cfg == cfg
      ensures content.state == map[] && content.byNamespace == map[] && registry.known == {} && registry.subs == map[]
      ensures tracked == map[] && blobs == map[] && handles == {}
      ensures fresh(content) && fresh(registry)
    {
      this.cfg := cfg;
      content := new ContentIndex();
      registry := new NamespaceRegistry();
      tracked, blobs, handles := map[], map[], {};
    }

    /** The body of `spawn_watch` for one remote entry. */
    method Watch(ns: NamespaceId, entry: DocEntry, from: EndpointId, nowMs: nat) returns (wake: Option<TrackedEntry>)
      requires Valid()
      modifies this, content
      ensures Valid() && Model() == Arrived(old(Model()), ns, entry, from, nowMs)
      ensures wake.Some? <==> ArrivalWakes(old(Model()), entry.hash)
      ensures wake.Some? <==> entry.hash in blobs && entry.hash in old(tracked) && !old(tracked)[entry.hash].woken
      ensures wake.Some? ==> wake.value == NewEntry(ns, entry, from, nowMs, true)
      ensures wake.Some? ==> wake.value.ns == ns && wake.value.deliveredBy == from && wake.value.firstSeenMs == nowMs
    {
      var hash := entry.hash;
      content.Want(ns, hash);
      var present := hash in blobs;
      var fresh' := NewEntry(ns, entry, from, nowMs, present);
      if hash !in tracked {
        tracked := tracked[hash := fresh'];
      }
      var known := tracked[hash].woken;
      if present {
        content.MarkPresent(hash);
      }
      wake := if present && !known then Some(fresh') else None;
    }

    /** `settle_once`. The ledger is visited in no particular order; a download that is tried and
        succeeds puts its bytes in the store. */
    method SettleOnce(nowMs: nat, downloads: Downloads) returns (wakes: seq<Wake>)
      requires Valid()
      modifies this, content
      ensures Valid() && Model() == Settled(old(Model()), nowMs, downloads)
      ensures WakesOf(old(Model()), nowMs, downloads, Outstanding(old(Model())), wakes)
      ensures forall i, j :: 0 <= i < j < |wakes| ==> wakes[i].hash != wakes[j].hash
      ensures forall i :: 0 <= i < |wakes| ==>
        && wakes[i].hash in old(tracked) && wakes[i].entry == old(tracked)[wakes[i].hash]
        && wakes[i].degraded == (wakes[i].hash !in blobs)
      ensures forall h :: (exists i :: 0 <= i < |wakes| && wakes[i].hash == h) <==>
        && h in old(tracked) && !old(tracked)[h].contentPresent && !old(tracked)[h].woken
        && (h in blobs || nowMs >= old(tracked)[h].firstSeenMs + 30_000)
    {
      ghost var before := Model();
      var todo := set h | h in tracked && !tracked[h].contentPresent;
      ghost var batch: set<ContentHash> := {};
      wakes := [];
      SettledOnNothing(before, nowMs, downloads);
      while todo != {}
        invariant Valid()
        invariant forall h :: h in Outstanding(before) <==> h in batch || h in todo
        invariant forall h :: h in todo ==> h !in batch
        invariant Model() == SettledOn(before, nowMs, downloads, batch)
        invariant WakesOf(before, nowMs, downloads, batch, wakes)
        decreases |todo|
      {
        var hash :| hash in todo;
        todo := todo - {hash};
        wakes := SettleNext(before, batch, wakes, hash, nowMs, downloads);
        batch := batch + {hash};
      }
      assert batch == Outstanding(before);
      WakesText(before, nowMs, downloads, wakes);
    }

    /** One more hash in a pass that has settled `batch`. */
    method SettleNext(
      ghost before: StashState, ghost batch: set<ContentHash>, wakes: seq<Wake>,
      hash: ContentHash, nowMs: nat, downloads: Downloads)
      returns (more: seq<Wake>)
      requires Valid() && batch + {hash} <= before.tracked.Keys && hash !in batch
      requires !before.tracked[hash].contentPresent
      requires Model() == SettledOn(before, nowMs, downloads, batch) && WakesOf(before, nowMs, downloads, batch, wakes)
      modifies this, content
      ensures Valid() && Model() == SettledOn(before, nowMs, downloads, batch + {hash})
      ensures WakesOf(before, nowMs, downloads, batch + {hash}, more)
    {
      SettledOnOneMore(before, nowMs, downloads, batch, hash);
      var wake := SettleOne(hash, nowMs, downloads);
      WakesOfOneMore(before, nowMs, downloads, batch, hash, wakes, wake);
      more := if wake.Some? then wakes + [wake.value] else wakes;
    }

    /** One round of the settle loop. */
    method SettleOne(hash: ContentHash, nowMs: nat, downloads: Downloads) returns (wake: Option<Wake>)
      requires Valid() && hash in tracked && !tracked[hash].contentPresent
      modifies this, content
      ensures Valid() && Model() == SettledOn(old(Model()), nowMs, downloads, {hash})
      ensures wake.Some? <==> SettleWakes(old(Model()), nowMs, downloads, hash)
      ensures wake.Some? ==> wake.value == Wake(hash, old(tracked[hash]), !Ready(old(Model()), nowMs, downloads, hash))
      ensures hash in tracked && (tracked[hash].contentPresent <==> hash in blobs)
    {
      SettledOnSingle(Model(), nowMs, downloads, hash);
      var entry := tracked[hash];
      var present := hash in blobs;
      if !present && nowMs >= entry.nextAttemptMs && hash in downloads {
        blobs := blobs[hash := downloads[hash]];
        present := true;
      }
      var live := tracked[hash];
      if present {
        live := live.(contentPresent := true);
        content.MarkPresent(hash);
      } else if nowMs >= entry.nextAttemptMs {
        live := live.(attempts := if live.attempts < U32_MAX then live.attempts + 1 else live.attempts);
        live := live.(nextAttemptMs := nowMs + BackoffMs(live.attempts));
      }
      var elapsed := if nowMs < live.firstSeenMs then 0 else nowMs - live.firstSeenMs;
      wake := None;
      if !live.woken && (present || elapsed >= WAKE_FALLBACK_MS) {
        live := live.(woken := true);
        wake := Some(Wake(hash, entry, !present));
      }
      tracked := tracked[hash := live];
    }

    /** `put_content`. `storeOk` is whether the store takes the bytes. */
    method PutContent(ns: NamespaceId, expected: ContentHash, bytes: seq<byte>, storeOk: bool) returns (outcome: PutOutcome)
      requires Valid()
      modifies this, content
      ensures Valid()
      ensures Model() == if storeOk then Uploaded(cfg, old(Model()), ns, expected, bytes) else old(Model())
      ensures var named := ns in old(content.byNamespace) && expected in old(content.byNamespace)[ns];
              && (outcome == UnknownNamespace <==> ns !in old(registry.known))
              && (outcome == UntrackedHash <==> ns in old(registry.known) && !named)
              && (outcome == HashMismatch <==> ns in old(registry.known) && named && cfg.digest(bytes) != expected)
              && (outcome == StoreFailed <==>
                    ns in old(registry.known) && named && cfg.digest(bytes) == expected && !storeOk)
              && (outcome == Stored <==>
                    ns in old(registry.known) && named && cfg.digest(bytes) == expected && storeOk)
      ensures outcome != Stored ==> Model() == old(Model())
      ensures outcome == Stored ==>
        && expected in blobs && (expected in old(blobs) || blobs[expected] == bytes)
        && expected in content.state && content.state[expected] == Present
    {
      if ns !in registry.known {
        return UnknownNamespace;
      }
      var named := content.IsTrackedFor(ns, expected);
      if !named {
        return UntrackedHash;
      }
      if cfg.digest(bytes) != expected {
        return HashMismatch;
      }
      if !storeOk {
        return StoreFailed;
      }
      if expected !in blobs {
        blobs := blobs[expected := bytes];
      }
      content.MarkPresent(expected);
      outcome := Stored;
    }

    /** `content_stats`: the health numbers. */
    method ContentStats() returns (missing: nat, total: nat)
      requires Valid()
      ensures missing == |Missing(Model().index)|
      ensures missing == |set h | h in content.state && content.state[h] == Wanted|
      ensures total == |set ns, h | ns in content.byNamespace && h in content.byNamespace[ns] :: h|
    {
      missing := content.MissingCount();
      total := content.TrackedCount();
    }

    /** `content_bytes` */
    method ContentBytes(ns: NamespaceId, hash: ContentHash) returns (bytes: Option<seq<byte>>)
      ensures bytes == Served(Model(), ns, hash)
      ensures bytes ==
        if ns in content.byNamespace && hash in content.byNamespace[ns]
           && hash in content.state && content.state[hash] == Present && hash in blobs
        then Some(blobs[hash]) else None
    {
      var present := content.IsPresentFor(ns, hash);
      if !present {
        return None;
      }
      bytes := if hash in blobs then Some(blobs[hash]) else None;
    }

    /** `register` when nothing interleaves: the handle exists before the namespace is known, and the
        caller watches exactly when the namespace is new. */
    method Register(ns: NamespaceId, sub: Option<PushSubscription>, importOk: bool) returns (watch: bool)
      requires Valid()
      modifies this, registry
      ensures Valid()
      ensures importOk || ns in old(handles) ==>
        Model() == old(Model()).(known := old(registry.known) + {ns}, handles := old(handles) + {ns})
        && registry.history == old(registry.history) + [Op.Register(ns, sub)]
        && (watch <==> ns !in old(registry.known))
      ensures !importOk && ns !in old(handles) ==> Model() == old(Model()) && registry.history == old(registry.history) && !watch
    {
      if ns !in handles {
        if !importOk {
          return false;
        }
        handles := handles + {ns};
      }
      assert handles == old(handles) + {ns};
      watch := registry.Register(ns, sub);
    }

    /** `prune_once`. Namespaces are visited in no particular order, and so are the hashes to forget.
        A namespace that fails to list ends the sweep; `visited` is what had been swept by then. */
    method PruneOnce(docs: Listing, nowMs: nat) returns (result: SweepResult, ghost visited: set<NamespaceId>)
      requires Valid()
      modifies this, content
      ensures Valid() && visited <= Visitable(old(Model())) * docs.Keys
      ensures Model() == Swept(cfg, old(Model()), docs, visited, nowMs)
      ensures result.Finished? <==> Visitable(old(Model())) <= docs.Keys
      ensures result.Finished? <==> forall ns :: ns in old(registry.known) && ns in old(handles) ==> ns in docs
      ensures result.Finished? ==> forall ns :: ns in visited <==> ns in old(registry.known) && ns in old(handles)
      ensures result.Finished? ==> visited == Visitable(old(Model()))
      ensures result.Finished? ==> result.released == |old(content.state)| - |content.state|
    {
      result, visited := PruneKnown(docs, nowMs, SweepPlan(cfg, docs, nowMs));
    }

    /** The loop over the known namespaces; `plan` is what their listings allow. */
    method PruneKnown(docs: Listing, nowMs: nat, ghost plan: Drops) returns (result: SweepResult, ghost visited: set<NamespaceId>)
      requires Valid() && plan.Keys == docs.Keys
      requires forall ns :: ns in docs ==> plan[ns] == Releasable(docs[ns], cfg.retention, nowMs)
      modifies this, content
      ensures Valid() && visited <= Visitable(old(Model())) * docs.Keys
      ensures Model() == Dropped(old(Model()), Restrict(plan, visited))
      ensures result.Finished? <==> Visitable(old(Model())) <= docs.Keys
      ensures result.Finished? ==> visited == Visitable(old(Model()))
      ensures result.Finished? ==> result.released == |old(content.state)| - |content.state|
    {
      hide Dropped, Restrict, Releasable;
      ghost var before := Model();
      var released: nat := 0;
      visited := {};
      DropNone(before, plan);
      var todo := registry.known;
      while todo != {}
        invariant Valid() && registry.known == before.known && handles == before.handles
        invariant todo <= before.known
        invariant forall n :: n in visited <==> n in before.known && n !in todo && n in before.handles
        invariant visited <= docs.Keys
        invariant Model() == Dropped(before, Restrict(plan, visited))
        invariant released == |before.index.state| - |content.state|
        decreases |todo|
      {
        var ns :| ns in todo;
        todo := todo - {ns};
        if ns in handles {
          if ns !in docs {
            assert ns in Visitable(before);
            return ListingFailed, visited;
          }
          var n := SweepNext(before, plan, visited, ns, docs[ns], nowMs);
          released := released + n;
          visited := visited + {ns};
        }
      }
      result := Finished(released);
    }

    /** One more namespace in a sweep that has done `visited`. */
    method SweepNext(
      ghost before: StashState, ghost plan: Drops, ghost visited: set<NamespaceId>,
      ns: NamespaceId, candidates: seq<DocEntry>, nowMs: nat)
      returns (released: nat)
      requires Valid() && ns in plan && ns !in visited
      requires plan[ns] == Releasable(candidates, cfg.retention, nowMs)
      requires Model() == Dropped(before, Restrict(plan, visited))
      modifies this, content
      ensures Valid() && Model() == Dropped(before, Restrict(plan, visited + {ns}))
      ensures handles == old(handles)
      ensures released == |old(content.state)| - |content.state|
    {
      DropOneNamespace(before, plan, visited, ns);
      released := SweepNamespace(ns, candidates, nowMs);
    }

    /** The sweep of one namespace, from its listing. */
    method SweepNamespace(ns: NamespaceId, candidates: seq<DocEntry>, nowMs: nat) returns (released: nat)
      requires Valid()
      modifies this, content
      ensures Valid()
      ensures Model() == Dropped(old(Model()), map[ns := Releasable(candidates, cfg.retention, nowMs)])
      ensures released == |old(content.state)| - |content.state|
    {
      var forgets := HashesToForget(cfg.retention, candidates, nowMs);
      released := ForgetAll(ns, forgets);
    }

    /** Forget one hash; stop chasing it when that was its last reference. */
    method ForgetOne(ns: NamespaceId, hash: ContentHash) returns (released: nat)
      requires Valid()
      modifies this, content
      ensures Valid() && Model() == Dropped(old(Model()), map[ns := {hash}])
      ensures released == |old(content.state)| - |content.state|
    {
      ghost var before := Model();
      var lastReference := content.Forget(ns, hash);
      released := 0;
      DropOne(before, ns, hash, content.Value(), lastReference);
      if lastReference {
        tracked := tracked - {hash};
        released := 1;
      }
    }

    /** The loop over `forget_hashes`. */
    method ForgetAll(ns: NamespaceId, hashes: set<ContentHash>) returns (released: nat)
      requires Valid()
      modifies this, content
      ensures Valid()
      ensures Model() == Dropped(old(Model()), map[ns := hashes])
      ensures released == |old(content.state)| - |content.state|
    {
      ghost var before := Model();
      released := 0;
      var todo := hashes;
      ghost var done: set<ContentHash> := {};
      DropNothing(before, ns);
      while todo != {}
        invariant Valid()
        invariant forall h :: h in hashes <==> h in done || h in todo
        invariant Model() == Dropped(before, map[ns := done])
        invariant released == |before.index.state| - |content.state|
        decreases |todo|
      {
        var hash :| hash in todo;
        todo := todo - {hash};
        DropOneMore(before, ns, done, hash);
        var n := ForgetOne(ns, hash);
        released := released + n;
        done := done + {hash};
      }
      assert done == hashes;
    }
  }

  /** Decide, collect the hashes that are kept, then the released ones nobody keeps. */
  method HashesToForget(policy: RetentionPolicy, candidates: seq<DocEntry>, nowMs: nat) returns (forgets: set<ContentHash>)
    ensures forgets == Releasable(candidates, policy, nowMs)
    ensures forall h :: h in forgets <==>
      && (exists i :: 0 <= i < |candidates| && candidates[i].hash == h)
      && forall i :: 0 <= i < |candidates| && candidates[i].hash == h ==>
           var mine := DecodeFixKey(candidates[i].key);
           || candidates[i].timestampUs + policy.retentionMs * 1_000 < nowMs * 1_000
           || exists j ::
                && 0 <= j < |candidates|
                && mine.Some? && DecodeFixKey(candidates[j].key).Some?
                && DecodeFixKey(candidates[j].key).value.author == mine.value.author
                && DecodeFixKey(candidates[j].key).value.fixSeq > mine.value.fixSeq
  {
    hide DecodeFixKey;
    var decisions := ReleaseDecisions(RetentionEntries(candidates), policy, nowMs);
    var kept := set i | 0 <= i < |candidates| && decisions[i].None? :: candidates[i].hash;
    forgets := ForgetUnlessKept(candidates, decisions, kept);
    forall i | 0 <= i < |candidates| ensures decisions[i].None? <==> Kept(candidates, policy, nowMs, i) {}
    assert kept == KeptHashes(candidates, policy, nowMs);
    hide Kept, Releasable;
    forall h {
      ReleasableText(candidates, policy, nowMs, h);
    }
  }

  method ForgetUnlessKept(candidates: seq<DocEntry>, decisions: seq<Option<ReleaseReason>>, kept: set<ContentHash>)
    returns (forgets: set<ContentHash>)
    requires |decisions| == |candidates|
    requires forall i :: 0 <= i < |candidates| && decisions[i].None? ==> candidates[i].hash in kept
    ensures forgets == NamedHashes(candidates) - kept
  {
    forgets := {};
    for i := 0 to |candidates|
      invariant forgets == NamedHashes(candidates[..i]) - kept
    {
      NamedHashesSnoc(candidates, i);
      if decisions[i].Some? && candidates[i].hash !in kept {
        forgets := forgets + {candidates[i].hash};
      }
    }
    assert candidates[..|candidates|] == candidates;
  }

  lemma NamedHashesSnoc(candidates: seq<DocEntry>, i: nat)
    requires i < |candidates|
    ensures NamedHashes(candidates[..i + 1]) == NamedHashes(candidates[..i]) + {candidates[i].hash}
  {
  }

  // ---------------------------------------------------------------------------------------------
  // Closed forms, one step at a time
  // ---------------------------------------------------------------------------------------------

  /** The wakes of a pass over `batch`: one for each hash that is due, none twice, with the entry as
      it was and marked degraded exactly when its bytes are not here. */
  ghost predicate WakesOf(m: StashState, nowMs: nat, downloads: Downloads, batch: set<ContentHash>, wakes: seq<Wake>) {
    && (forall i :: 0 <= i < |wakes| ==>
          && wakes[i].hash in batch && SettleWakes(m, nowMs, downloads, wakes[i].hash)
          && wakes[i].entry == m.tracked[wakes[i].hash]
          && wakes[i].degraded == !Ready(m, nowMs, downloads, wakes[i].hash))
    && (forall i, j :: 0 <= i < j < |wakes| ==> wakes[i].hash != wakes[j].hash)
    && (forall h :: h in batch && SettleWakes(m, nowMs, downloads, h) ==>
          exists i :: 0 <= i < |wakes| && wakes[i].hash == h)
  }

  /** The wakes of a whole pass in terms of the entries and of the store after it. */
  lemma WakesText(m: StashState, nowMs: nat, downloads: Downloads, wakes: seq<Wake>)
    requires WakesOf(m, nowMs, downloads, Outstanding(m), wakes)
    ensures forall i :: 0 <= i < |wakes| ==>
      && wakes[i].hash in m.tracked && wakes[i].entry == m.tracked[wakes[i].hash]
      && wakes[i].degraded == (wakes[i].hash !in Settled(m, nowMs, downloads).blobs)
    ensures forall h :: (exists i :: 0 <= i < |wakes| && wakes[i].hash == h) <==>
      && h in m.tracked && !m.tracked[h].contentPresent && !m.tracked[h].woken
      && (h in Settled(m, nowMs, downloads).blobs || nowMs >= m.tracked[h].firstSeenMs + 30_000)
  {
    forall h | h in Outstanding(m)
      ensures Ready(m, nowMs, downloads, h) <==> h in Settled(m, nowMs, downloads).blobs
    {
    }
    hide Settled, Ready;
    forall h
      ensures SettleWakes(m, nowMs, downloads, h) <==>
        && h in m.tracked && !m.tracked[h].contentPresent && !m.tracked[h].woken
        && (h in Settled(m, nowMs, downloads).blobs || nowMs >= m.tracked[h].firstSeenMs + 30_000)
    {
      assert h in Outstanding(m) <==> h in m.tracked && !m.tracked[h].contentPresent;
    }
    hide SettleWakes;
  }

  lemma WakesOfOneMore(
    m: StashState, nowMs: nat, downloads: Downloads, batch: set<ContentHash>, h: ContentHash,
    wakes: seq<Wake>, wake: Option<Wake>)
    requires WakesOf(m, nowMs, downloads, batch, wakes) && h in m.tracked && h !in batch
    requires wake.Some? <==> SettleWakes(m, nowMs, downloads, h)
    requires wake.Some? ==> wake.value == Wake(h, m.tracked[h], !Ready(m, nowMs, downloads, h))
    ensures WakesOf(m, nowMs, downloads, batch + {h}, if wake.Some? then wakes + [wake.value] else wakes)
  {
    if wake.Some? {
      var more := wakes + [wake.value];
      assert more[|wakes|].hash == h;
      assert forall i :: 0 <= i < |wakes| ==> more[i] == wakes[i];
    }
  }

  lemma SettledOnNothing(m: StashState, nowMs: nat, downloads: Downloads)
    ensures SettledOn(m, nowMs, downloads, {}) == m
  {
  }

  lemma SettledOnSingle(m: StashState, nowMs: nat, downloads: Downloads, h: ContentHash)
    requires h in m.tracked
    ensures var ready := Ready(m, nowMs, downloads, h);
            SettledOn(m, nowMs, downloads, {h}) ==
            m.(index := if ready then WithPresent(m.index, h) else m.index,
               tracked := m.tracked[h := SettledEntry(m.tracked[h], ready, nowMs)],
               blobs := if Fetches(m, nowMs, downloads, h) then m.blobs[h := downloads[h]] else m.blobs)
  {
  }

  /** Rounds of a pass do not disturb each other. */
  lemma SettledOnOneMore(m: StashState, nowMs: nat, downloads: Downloads, batch: set<ContentHash>, h: ContentHash)
    requires batch + {h} <= m.tracked.Keys && h !in batch
    ensures var mid := SettledOn(m, nowMs, downloads, batch);
            && h in mid.tracked && mid.tracked[h] == m.tracked[h]
            && (Ready(mid, nowMs, downloads, h) <==> Ready(m, nowMs, downloads, h))
            && (SettleWakes(mid, nowMs, downloads, h) <==> SettleWakes(m, nowMs, downloads, h))
            && SettledOn(mid, nowMs, downloads, {h}) == SettledOn(m, nowMs, downloads, batch + {h})
  {
    var mid := SettledOn(m, nowMs, downloads, batch);
    assert h in mid.blobs <==> h in m.blobs;
    SettledOnSingle(mid, nowMs, downloads, h);
    SettledIndexOneMore(m, nowMs, downloads, batch, h);
    SettledLedgerOneMore(m, nowMs, downloads, batch, h);
    SettledBlobsOneMore(m, nowMs, downloads, batch, h);
  }

  lemma SettledIndexOneMore(m: StashState, nowMs: nat, downloads: Downloads, batch: set<ContentHash>, h: ContentHash)
    requires batch + {h} <= m.tracked.Keys && h !in batch
    ensures SettledIndex(m, nowMs, downloads, batch + {h})
            == if Ready(m, nowMs, downloads, h) && h in m.index.state
               then SettledIndex(m, nowMs, downloads, batch)[h := Present]
               else SettledIndex(m, nowMs, downloads, batch)
  {
  }

  lemma SettledLedgerOneMore(m: StashState, nowMs: nat, downloads: Downloads, batch: set<ContentHash>, h: ContentHash)
    requires batch + {h} <= m.tracked.Keys && h !in batch
    ensures SettledLedger(m, nowMs, downloads, batch + {h})
            == SettledLedger(m, nowMs, downloads, batch)[h := SettledEntry(m.tracked[h], Ready(m, nowMs, downloads, h), nowMs)]
  {
  }

  lemma SettledBlobsOneMore(m: StashState, nowMs: nat, downloads: Downloads, batch: set<ContentHash>, h: ContentHash)
    requires batch + {h} <= m.tracked.Keys && h !in batch
    ensures SettledBlobs(m, nowMs, downloads, batch + {h})
            == if Fetches(m, nowMs, downloads, h) then SettledBlobs(m, nowMs, downloads, batch)[h := downloads[h]]
               else SettledBlobs(m, nowMs, downloads, batch)
  {
  }

  lemma DropNothing(m: StashState, ns: NamespaceId)
    requires WellFormed(m.index)
    ensures Dropped(m, map[ns := {}]) == m
  {
    ReleaseNothing(m.index, map[ns := {}]);
  }

  lemma DropOne(m: StashState, ns: NamespaceId, hash: ContentHash, after: IndexState, last: bool)
    requires after == Release(m.index, map[ns := {hash}])
    requires last <==> hash in m.index.state && hash !in after.state
    requires after.state == if last then m.index.state - {hash} else m.index.state
    ensures Dropped(m, map[ns := {hash}]) == m.(index := after, tracked := if last then m.tracked - {hash} else m.tracked)
    ensures last ==> |after.state| == |m.index.state| - 1
  {
    LedgerAfterOne(m.tracked, m.index.state, hash, last);
  }

  lemma LedgerAfterOne(tracked: map<ContentHash, TrackedEntry>, state: map<ContentHash, Presence>, hash: ContentHash, last: bool)
    requires last ==> hash in state
    ensures var after := if last then state - {hash} else state;
            && LedgerAfter(tracked, state, after) == (if last then tracked - {hash} else tracked)
            && |after| == |state| - if last then 1 else 0
  {
  }

  lemma DropOneMore(m: StashState, ns: NamespaceId, done: set<ContentHash>, hash: ContentHash)
    ensures Dropped(Dropped(m, map[ns := done]), map[ns := {hash}]) == Dropped(m, map[ns := done + {hash}])
  {
    DropTwice(m, map[ns := done], map[ns := {hash}]);
    assert Join(map[ns := done], map[ns := {hash}]) == map[ns := done + {hash}];
  }

  lemma DropTwice(m: StashState, a: Drops, b: Drops)
    ensures Dropped(Dropped(m, a), b) == Dropped(m, Join(a, b))
  {
    ReleaseTwice(m.index, a, b);
    var first := Release(m.index, a);
    LedgerAfterTwice(m.tracked, m.index.state, first.state, Release(first, b).state);
  }

  lemma LedgerAfterTwice(
    tracked: map<ContentHash, TrackedEntry>, s0: map<ContentHash, Presence>,
    s1: map<ContentHash, Presence>, s2: map<ContentHash, Presence>)
    requires s2.Keys <= s1.Keys <= s0.Keys
    ensures LedgerAfter(LedgerAfter(tracked, s0, s1), s1, s2) == LedgerAfter(tracked, s0, s2)
  {
  }

  lemma DropNone(m: StashState, plan: Drops)
    requires WellFormed(m.index)
    ensures Dropped(m, Restrict(plan, {})) == m
  {
    assert Restrict(plan, {}) == map[];
    ReleaseNothing(m.index, map[]);
  }

  lemma DropOneNamespace(m: StashState, plan: Drops, visited: set<NamespaceId>, ns: NamespaceId)
    requires ns in plan && ns !in visited
    ensures Dropped(Dropped(m, Restrict(plan, visited)), map[ns := plan[ns]]) == Dropped(m, Restrict(plan, visited + {ns}))
  {
    DropTwice(m, Restrict(plan, visited), map[ns := plan[ns]]);
    RestrictOneMore(plan, visited, ns);
  }

  lemma RestrictOneMore(plan: Drops, visited: set<NamespaceId>, ns: NamespaceId)
    requires ns in plan && ns !in visited
    ensures Join(Restrict(plan, visited), map[ns := plan[ns]]) == Restrict(plan, visited + {ns})
  {
    var joined, all := Join(Restrict(plan, visited), map[ns := plan[ns]]), Restrict(plan, visited + {ns});
    assert joined.Keys == all.Keys;
    forall n | n in all ensures joined[n] == all[n] {
      assert n == ns ==> Names(Restrict(plan, visited), n) == {};
      assert n != ns ==> Names(map[ns := plan[ns]], n) == {};
    }
  }
}
