/** What each handler leaves behind, field by field and in plain numbers. */
module Effects {
  import opened Bytes
  import opened Ids
  import opened FixKeys
  import opened Content
  import opened Stash
  import opened Protocol

  // ---------------------------------------------------------------------------------------------
  // An arrival
  // ---------------------------------------------------------------------------------------------

  /** An arrival adds one reference, never takes back a presence, and leaves every entry that is on the
      ledger as it was. */
  lemma ArrivalEffect(m: StashState, ns: NamespaceId, entry: DocEntry, from: EndpointId, nowMs: nat)
    ensures var h, after := entry.hash, Arrived(m, ns, entry, from, nowMs);
            && (forall n, x ::
                  (n in after.index.byNamespace && x in after.index.byNamespace[n])
                  <==> (n in m.index.byNamespace && x in m.index.byNamespace[n]) || (n == ns && x == h))
            && after.index.state.Keys == m.index.state.Keys + {h}
            && (forall x :: x in m.index.state && x != h ==> after.index.state[x] == m.index.state[x])
            && (after.index.state[h] == Present
                <==> h in m.blobs || (h in m.index.state && m.index.state[h] == Present))
            && after.tracked.Keys == m.tracked.Keys + {h}
            && (forall x :: x in m.tracked ==> after.tracked[x] == m.tracked[x])
            && after.blobs == m.blobs && after.known == m.known && after.handles == m.handles
  {
  }

  lemma ArrivalWakeText(m: StashState, h: ContentHash)
    ensures ArrivalWakes(m, h) <==> h in m.blobs && h in m.tracked && !m.tracked[h].woken
  {
  }

  // ---------------------------------------------------------------------------------------------
  // A settle pass
  // ---------------------------------------------------------------------------------------------

  /** The delays in milliseconds. */
  lemma BackoffNumbers(attempts: nat)
    ensures BackoffMs(attempts) ==
      if attempts == 0 then 500
      else if attempts == 1 then 1_000
      else if attempts == 2 then 2_000
      else if attempts == 3 then 4_000
      else if attempts == 4 then 8_000
      else if attempts == 5 then 16_000
      else if attempts == 6 then 32_000
      else 60_000
  {
    assert Pow2(3) == 8 && Pow2(5) == 32 && Pow2(6) == 64 && Pow2(7) == 128;
  }

  /** What a pass does to one entry: one without bytes gets its presence flag exactly when the store
      has the bytes after the pass; its wake flag then, or once it is 30 s old; and a failed attempt is
      counted, up to the largest 32-bit number, and put off. Everything else stays. */
  lemma SettleEffect(m: StashState, nowMs: nat, downloads: Downloads, h: ContentHash)
    requires h in m.tracked
    ensures h in Settled(m, nowMs, downloads).tracked
    ensures var e, after := m.tracked[h], Settled(m, nowMs, downloads);
            var stored := h in after.blobs;
            var failed := !e.contentPresent && !stored && nowMs >= e.nextAttemptMs;
            var attempts := if failed && e.attempts < 4_294_967_295 then e.attempts + 1 else e.attempts;
            && (!e.contentPresent ==> (stored <==> h in m.blobs || (nowMs >= e.nextAttemptMs && h in downloads)))
            && after.tracked[h] == TrackedEntry(
                 e.ns, e.author, e.deliveredBy, e.fixSeq, e.firstSeenMs,
                 e.contentPresent || stored,
                 e.woken || (!e.contentPresent && (stored || nowMs >= e.firstSeenMs + 30_000)),
                 if failed then nowMs + BackoffMs(attempts) else e.nextAttemptMs,
                 attempts)
  {
  }

  /** And to the rest: the references, the registry, the bytes that were there, and which hashes are
      tracked. */
  lemma SettleFrame(m: StashState, nowMs: nat, downloads: Downloads)
    ensures var after := Settled(m, nowMs, downloads);
            && after.tracked.Keys == m.tracked.Keys && after.index.state.Keys == m.index.state.Keys
            && after.index.byNamespace == m.index.byNamespace
            && after.known == m.known && after.handles == m.handles
            && (forall h :: h in m.blobs ==> h in after.blobs && after.blobs[h] == m.blobs[h])
            && (forall h :: h in after.blobs && h !in m.blobs ==>
                  && h in m.tracked && !m.tracked[h].contentPresent && nowMs >= m.tracked[h].nextAttemptMs
                  && h in downloads && after.blobs[h] == downloads[h])
  {
  }

  /** After a pass the ledger's flag, the index and the store say the same of every tracked hash. */
  lemma PassFindsAll(cfg: Config, m: StashState, nowMs: nat, downloads: Downloads, h: ContentHash)
    requires Inv(cfg, m) && h in m.tracked
    requires forall x :: x in downloads ==> cfg.digest(downloads[x]) == x
    ensures var after := Settled(m, nowMs, downloads);
            && h in after.tracked && h in after.index.state
            && (after.tracked[h].contentPresent <==> h in after.blobs)
            && (after.tracked[h].contentPresent <==> after.index.state[h] == Present)
  {
    SettleKeepsInv(cfg, m, nowMs, downloads);
    SettleEffect(m, nowMs, downloads, h);
  }

  /** So the next pass looks at exactly the hashes the store still lacks, and one that brings no bytes
      leaves the others as they are. */
  lemma NextPassSkipsStored(cfg: Config, m: StashState, nowMs: nat, downloads: Downloads, laterMs: nat)
    requires Inv(cfg, m) && forall x :: x in downloads ==> cfg.digest(downloads[x]) == x
    ensures var after := Settled(m, nowMs, downloads);
            var again := Settled(after, laterMs, map[]);
            && (forall h :: h in Outstanding(after) <==> h in m.tracked && h !in after.blobs)
            && Outstanding(again) == Outstanding(after) && again.blobs == after.blobs
            && (forall h :: h in after.tracked && h in after.blobs ==>
                  h in again.tracked && again.tracked[h] == after.tracked[h])
  {
    var after := Settled(m, nowMs, downloads);
    var again := Settled(after, laterMs, map[]);
    hide Settled, Inv;
    SettleFrame(m, nowMs, downloads);
    SettleFrame(after, laterMs, map[]);
    forall h | h in m.tracked
      ensures after.tracked[h].contentPresent <==> h in after.blobs
      ensures again.tracked[h].contentPresent <==> h in after.blobs
      ensures h in after.blobs ==> again.tracked[h] == after.tracked[h]
    {
      PassFindsAll(cfg, m, nowMs, downloads, h);
      NothingNewSettles(after, laterMs, h);
    }
    assert again.blobs == after.blobs;
  }

  lemma NothingNewSettles(m: StashState, nowMs: nat, h: ContentHash)
    requires h in m.tracked && (m.tracked[h].contentPresent <==> h in m.blobs)
    ensures var after := Settled(m, nowMs, map[]);
            && h in after.tracked && (after.tracked[h].contentPresent <==> h in m.blobs)
            && (h in m.blobs ==> after.tracked[h] == m.tracked[h])
  {
    SettleEffect(m, nowMs, map[], h);
  }

  /** When a pass wakes for a hash. */
  lemma SettleWakeText(m: StashState, nowMs: nat, downloads: Downloads, h: ContentHash)
    ensures SettleWakes(m, nowMs, downloads, h) <==>
      && h in m.tracked && !m.tracked[h].contentPresent && !m.tracked[h].woken
      && (|| h in m.blobs
          || (nowMs >= m.tracked[h].nextAttemptMs && h in downloads)
          || nowMs >= m.tracked[h].firstSeenMs + 30_000)
  {
  }

  // ---------------------------------------------------------------------------------------------
  // An upload, a sweep, a read
  // ---------------------------------------------------------------------------------------------

  /** An upload of the right bytes to a namespace that names them stores them and marks them present;
      any other changes nothing; neither touches the references or the ledger. */
  lemma UploadEffect(cfg: Config, m: StashState, ns: NamespaceId, expected: ContentHash, bytes: seq<byte>)
    ensures var after := Uploaded(cfg, m, ns, expected, bytes);
            if ns in m.known && ns in m.index.byNamespace && expected in m.index.byNamespace[ns]
               && cfg.digest(bytes) == expected
            then
              && after.index.byNamespace == m.index.byNamespace && after.tracked == m.tracked
              && after.known == m.known && after.handles == m.handles
              && after.blobs == (if expected in m.blobs then m.blobs else m.blobs[expected := bytes])
              && after.index.state ==
                 (if expected in m.index.state then m.index.state[expected := Present] else m.index.state)
            else after == m
  {
  }

  /** A sweep never touches the registry or the bytes, and what stays indexed or tracked stays as it
      was. */
  lemma SweepFrame(cfg: Config, m: StashState, docs: Listing, visited: set<NamespaceId>, nowMs: nat)
    ensures var after := Swept(cfg, m, docs, visited, nowMs);
            && after.blobs == m.blobs && after.known == m.known && after.handles == m.handles
            && (forall h :: h in after.index.state ==> h in m.index.state && after.index.state[h] == m.index.state[h])
            && (forall h :: h in after.tracked ==> h in m.tracked && after.tracked[h] == m.tracked[h])
            && (forall ns :: ns in after.index.byNamespace ==> after.index.byNamespace[ns] != {})
  {
  }

  /** What a namespace is served. */
  lemma ServedText(m: StashState, ns: NamespaceId, h: ContentHash)
    ensures Served(m, ns, h) ==
      if ns in m.index.byNamespace && h in m.index.byNamespace[ns]
         && h in m.index.state && m.index.state[h] == Present && h in m.blobs
      then Some(m.blobs[h]) else None
  {
  }

  // ---------------------------------------------------------------------------------------------
  // What the statements about runs say
  // ---------------------------------------------------------------------------------------------

  /** The invariant of every run, spelled out. */
  lemma InvText(cfg: Config, m: StashState)
    ensures Inv(cfg, m) <==>
      && (forall h :: h in m.index.state <==> exists ns :: ns in m.index.byNamespace && h in m.index.byNamespace[ns])
      && (forall ns :: ns in m.index.byNamespace ==>
            m.index.byNamespace[ns] != {} && ns in m.known)
      && (forall ns :: ns in m.known ==> ns in m.handles)
      && m.tracked.Keys == m.index.state.Keys
      && (forall h :: h in m.tracked && m.tracked[h].contentPresent ==>
            m.tracked[h].woken && m.index.state[h] == Present)
      && (forall h :: h in m.index.state && m.index.state[h] == Present ==> h in m.blobs)
      && (forall h :: h in m.blobs ==> cfg.digest(m.blobs[h]) == h)
  {
  }

  /** Which steps end what a namespace holds: its own sweep, when its listing names the hash and no
      entry that names it is inside the window and without a newer fix of its author. */
  lemma SparesText(cfg: Config, step: Step, ns: NamespaceId, h: ContentHash)
    ensures Spares(cfg, step, ns, h) <==>
      (step.Sweep? && ns in step.visited && ns in step.docs ==>
         var entries := step.docs[ns];
         || !(exists i :: 0 <= i < |entries| && entries[i].hash == h)
         || exists i ::
              && 0 <= i < |entries| && entries[i].hash == h
              && entries[i].timestampUs + cfg.retention.retentionMs * 1_000 >= step.nowMs * 1_000
              && !exists j ::
                   && 0 <= j < |entries|
                   && DecodeFixKey(entries[i].key).Some? && DecodeFixKey(entries[j].key).Some?
                   && DecodeFixKey(entries[j].key).value.author == DecodeFixKey(entries[i].key).value.author
                   && DecodeFixKey(entries[j].key).value.fixSeq > DecodeFixKey(entries[i].key).value.fixSeq)
  {
    if step.Sweep? && ns in step.docs {
      var entries := step.docs[ns];
      forall i | 0 <= i < |entries| {
        KeptText(entries, cfg.retention, step.nowMs, i);
      }
    }
    hide Kept, DecodeFixKey;
  }

  /** Which steps are legal, and what the store does by itself. */
  lemma LegalText(cfg: Config, m: StashState, step: Step)
    ensures Enabled(cfg, m, step) <==>
      && (step.Arrive? ==> step.ns in m.known)
      && (step.Settle? ==> forall h :: h in step.downloads ==> cfg.digest(step.downloads[h]) == h)
      && (step.Sweep? ==> forall ns :: ns in step.visited ==> ns in m.known && ns in m.handles && ns in step.docs)
      && (step.Collect? ==>
            forall h, ns :: h in step.victims && ns in m.index.byNamespace ==> h !in m.index.byNamespace[ns])
    ensures step.BlobAppears? ==>
      var h := cfg.digest(step.bytes);
      Next(cfg, m, step) == m.(blobs := if h in m.blobs then m.blobs else m.blobs[h := step.bytes])
    ensures step.Collect? ==> Next(cfg, m, step) == m.(blobs := m.blobs - step.victims)
  {
  }

  lemma HoldsText(m: StashState, ns: NamespaceId, h: ContentHash)
    ensures Holds(m, ns, h) <==> ns in m.index.byNamespace && h in m.index.byNamespace[ns] && h in m.tracked
  {
  }
}
