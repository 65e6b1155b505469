/** What a retention sweep takes, what it leaves, and what it does not depend on. */
module SweepProperties {
  import opened Bytes
  import opened Ids
  import HexCodec
  import opened FixKeys
  import opened Retention
  import opened Content
  import opened Stash
  import opened Protocol
  import opened Node

  // ---------------------------------------------------------------------------------------------
  // Exactness
  // ---------------------------------------------------------------------------------------------

  /** Some entry of the listing names `h` and still needs it. */
  ghost predicate NeededBy(entries: seq<DocEntry>, policy: RetentionPolicy, nowMs: nat, h: ContentHash) {
    exists i :: 0 <= i < |entries| && entries[i].hash == h && Kept(entries, policy, nowMs, i)
  }

  ghost predicate ListedIn(entries: seq<DocEntry>, h: ContentHash) {
    exists i :: 0 <= i < |entries| && entries[i].hash == h
  }

  /** `ns` had the hash and has no reason to let go of it: it was not visited, or its listing does not
      name the hash at all, or some entry naming it still needs it. */
  ghost predicate HoldsOn(
    cfg: Config, m: StashState, docs: Listing, visited: set<NamespaceId>, nowMs: nat, ns: NamespaceId, h: ContentHash)
    requires visited <= docs.Keys
  {
    && TrackedFor(m.index, ns, h)
    && (ns in visited ==> !ListedIn(docs[ns], h) || NeededBy(docs[ns], cfg.retention, nowMs, h))
  }

  /** A namespace keeps a hash through a sweep exactly when it had it and holds on to it: it was not
      visited, or its listing does not name the hash, or an entry naming it is inside the window and no
      listed key decodes to that entry's author with a greater sequence. */
  lemma SweepIsExact(cfg: Config, m: StashState, docs: Listing, visited: set<NamespaceId>, nowMs: nat, ns: NamespaceId, h: ContentHash)
    requires visited <= docs.Keys
    ensures TrackedFor(Swept(cfg, m, docs, visited, nowMs).index, ns, h) <==>
            HoldsOn(cfg, m, docs, visited, nowMs, ns, h)
    ensures var after := Swept(cfg, m, docs, visited, nowMs).index;
            (ns in after.byNamespace && h in after.byNamespace[ns]) <==>
            && ns in m.index.byNamespace && h in m.index.byNamespace[ns]
            && (ns in visited ==>
                  var entries := docs[ns];
                  || !(exists i :: 0 <= i < |entries| && entries[i].hash == h)
                  || exists i ::
                       && 0 <= i < |entries| && entries[i].hash == h
                       && entries[i].timestampUs + cfg.retention.retentionMs * 1_000 >= nowMs * 1_000
                       && !exists j ::
                            && 0 <= j < |entries|
                            && DecodeFixKey(entries[i].key).Some? && DecodeFixKey(entries[j].key).Some?
                            && DecodeFixKey(entries[j].key).value.author == DecodeFixKey(entries[i].key).value.author
                            && DecodeFixKey(entries[j].key).value.fixSeq > DecodeFixKey(entries[i].key).value.fixSeq)
  {
    if ns in visited {
      var entries := docs[ns];
      forall i | 0 <= i < |entries| {
        KeptText(entries, cfg.retention, nowMs, i);
      }
    }
    hide Kept, DecodeFixKey;
  }

  /** A key that is no fix, a control key for one, keeps its content as long as it is inside the window. */
  lemma FreshOtherStays(
    cfg: Config, m: StashState, docs: Listing, visited: set<NamespaceId>, nowMs: nat, ns: NamespaceId, i: nat)
    requires visited <= docs.Keys && ns in docs && i < |docs[ns]|
    requires DecodeFixKey(docs[ns][i].key).None?
    requires docs[ns][i].timestampUs + cfg.retention.retentionMs * 1_000 >= nowMs * 1_000
    requires ns in m.index.byNamespace && docs[ns][i].hash in m.index.byNamespace[ns]
    ensures var after := Swept(cfg, m, docs, visited, nowMs).index;
            ns in after.byNamespace && docs[ns][i].hash in after.byNamespace[ns]
  {
    hide DecodeFixKey, HoldsOn, Swept;
    SweepIsExact(cfg, m, docs, visited, nowMs, ns, docs[ns][i].hash);
  }

  /** Across namespaces: a hash keeps its index state and its ledger entry, unchanged, exactly while
      some namespace that had it still holds it; otherwise both are gone. */
  lemma SharedHashIsProtected(cfg: Config, m: StashState, docs: Listing, visited: set<NamespaceId>, nowMs: nat, h: ContentHash)
    requires Coupled(m) && visited <= docs.Keys && h in m.index.state
    ensures var after := Swept(cfg, m, docs, visited, nowMs);
            var held := exists ns :: HoldsOn(cfg, m, docs, visited, nowMs, ns, h);
            && (held ==> h in after.index.state && after.index.state[h] == m.index.state[h]
                         && h in after.tracked && after.tracked[h] == m.tracked[h])
            && (!held ==> h !in after.index.state && h !in after.tracked)
  {
    var after := Swept(cfg, m, docs, visited, nowMs);
    var rest := after.index.byNamespace;
    forall ns ensures TrackedFor(after.index, ns, h) <==> HoldsOn(cfg, m, docs, visited, nowMs, ns, h) {
      SweepIsExact(cfg, m, docs, visited, nowMs, ns, h);
    }
    assert Named(rest, h) <==> exists ns :: TrackedFor(after.index, ns, h) by {
      forall ns ensures TrackedFor(after.index, ns, h) <==> ns in rest && h in rest[ns] {}
    }
  }

  // ---------------------------------------------------------------------------------------------
  // Counting and repeating
  // ---------------------------------------------------------------------------------------------

  /** The index and the ledger shrink together, so the count a sweep returns is how many hashes it
      stopped chasing. */
  lemma LedgerShrinksWithIndex(cfg: Config, m: StashState, drops: Drops)
    requires Inv(cfg, m)
    ensures var after := Dropped(m, drops);
            |m.tracked| - |after.tracked| == |m.index.state| - |after.index.state|
  {
    SweepKeepsInv(cfg, m, drops);
    var after := Dropped(m, drops);
    assert |m.tracked| == |m.tracked.Keys| && |m.index.state| == |m.index.state.Keys|;
    assert |after.tracked| == |after.tracked.Keys| && |after.index.state| == |after.index.state.Keys|;
  }

  lemma DropAgain(m: StashState, drops: Drops)
    requires WellFormed(m.index)
    ensures Dropped(Dropped(m, drops), drops) == Dropped(m, drops)
  {
    var after := Release(m.index, drops);
    ReleaseKeepsWellFormed(m.index, drops);
    forall ns | ns in after.byNamespace ensures after.byNamespace[ns] !! Names(drops, ns) {
      ReleaseNames(m.index, drops, ns);
    }
    ReleaseNothing(after, drops);
    hide Release;
    LedgerAfterSame(LedgerAfter(m.tracked, m.index.state, after.state), after.state);
  }

  lemma LedgerAfterSame(tracked: map<ContentHash, TrackedEntry>, state: map<ContentHash, Presence>)
    ensures LedgerAfter(tracked, state, state) == tracked
  {
  }

  /** Sweeping again with the same listing and clock changes nothing, though every release decision
      is derived again. */
  lemma SecondSweepChangesNothing(cfg: Config, m: StashState, docs: Listing, visited: set<NamespaceId>, nowMs: nat)
    requires Inv(cfg, m)
    ensures var after := Swept(cfg, m, docs, visited, nowMs);
            Swept(cfg, after, docs, visited, nowMs) == after && Visitable(after) == Visitable(m)
  {
    assert WellFormed(m.index);
    hide Inv, Coupled, SweepPlan, Restrict;
    var drops := Restrict(SweepPlan(cfg, docs, nowMs), visited);
    DropAgain(m, drops);
  }

  /** A second call of the sweep on an unchanged listing reports nothing released. */
  method SweepTwice(node: StashNode, docs: Listing, nowMs: nat) returns (again: SweepResult)
    requires node.Valid() && Inv(node.cfg, node.Model()) && Visitable(node.Model()) <= docs.Keys
    modifies node, node.content
    ensures again == Finished(0)
  {
    hide Swept, Visitable, Inv;
    ghost var before := node.Model();
    var first, visited := node.PruneOnce(docs, nowMs);
    SecondSweepChangesNothing(node.cfg, before, docs, visited, nowMs);
    var second, visited' := node.PruneOnce(docs, nowMs);
    again := second;
  }

  // ---------------------------------------------------------------------------------------------
  // Order
  // ---------------------------------------------------------------------------------------------

  datatype Forget = Forget(ns: NamespaceId, hash: ContentHash)

  /** The forgets one after another, in the order given. */
  function ForgetInOrder(m: StashState, order: seq<Forget>): StashState {
    if order == [] then m
    else
      var f := order[|order| - 1];
      Dropped(ForgetInOrder(m, order[..|order| - 1]), map[f.ns := {f.hash}])
  }

  /** How many of them report the last reference. */
  function ReleasedInOrder(m: StashState, order: seq<Forget>): nat {
    if order == [] then 0
    else
      var f := order[|order| - 1];
      var mid := ForgetInOrder(m, order[..|order| - 1]);
      ReleasedInOrder(m, order[..|order| - 1])
      + if f.hash in mid.index.state && f.hash !in Dropped(mid, map[f.ns := {f.hash}]).index.state then 1 else 0
  }

  /** All the forgets, as drops. */
  function DropsOf(order: seq<Forget>): Drops {
    map f | f in order :: f.ns := HashesFor(order, f.ns)
  }

  function HashesFor(order: seq<Forget>, ns: NamespaceId): set<ContentHash> {
    set f | f in order && f.ns == ns :: f.hash
  }

  lemma DropsOfSnoc(front: seq<Forget>, f: Forget)
    ensures Join(DropsOf(front), map[f.ns := {f.hash}]) == DropsOf(front + [f])
  {
    var a, b := DropsOf(front), map[f.ns := {f.hash}];
    var all := DropsOf(front + [f]);
    assert Join(a, b).Keys == all.Keys;
    hide HashesFor;
    forall ns | ns in all ensures Join(a, b)[ns] == all[ns] {
      HashesForSnoc(front, f, ns);
      NamesOfDrops(front, ns);
    }
  }

  lemma NamesOfDrops(order: seq<Forget>, ns: NamespaceId)
    ensures Names(DropsOf(order), ns) == HashesFor(order, ns)
  {
    if ns !in DropsOf(order) {
      assert forall f :: f in order ==> f.ns in DropsOf(order);
    }
  }

  lemma HashesForSnoc(front: seq<Forget>, f: Forget, ns: NamespaceId)
    ensures HashesFor(front + [f], ns) == HashesFor(front, ns) + if ns == f.ns then {f.hash} else {}
  {
  }

  lemma {:induction false} ForgetsAreOneDrop(m: StashState, order: seq<Forget>)
    requires WellFormed(m.index)
    ensures ForgetInOrder(m, order) == Dropped(m, DropsOf(order)) && WellFormed(ForgetInOrder(m, order).index)
    ensures ReleasedInOrder(m, order) == |m.index.state| - |ForgetInOrder(m, order).index.state|
  {
    if order == [] {
      assert DropsOf(order) == map[];
      ReleaseNothing(m.index, map[]);
    } else {
      var front, f := order[..|order| - 1], order[|order| - 1];
      assert order == front + [f];
      ForgetsAreOneDrop(m, front);
      var mid := ForgetInOrder(m, front);
      DropTwice(m, DropsOf(front), map[f.ns := {f.hash}]);
      DropsOfSnoc(front, f);
      ReleaseKeepsWellFormed(mid.index, map[f.ns := {f.hash}]);
      OneForgetCounts(mid, f);
    }
  }

  lemma OneForgetCounts(m: StashState, f: Forget)
    requires WellFormed(m.index)
    ensures var after := Dropped(m, map[f.ns := {f.hash}]);
            |m.index.state| - |after.index.state|
            == if f.hash in m.index.state && f.hash !in after.index.state then 1 else 0
  {
    var after := Release(m.index, map[f.ns := {f.hash}]);
    OthersStayNamed(m.index, f.ns, f.hash);
    if f.hash in m.index.state && f.hash !in after.state {
      assert after.state.Keys == m.index.state.Keys - {f.hash};
    } else {
      assert after.state.Keys == m.index.state.Keys;
    }
    assert |after.state| == |after.state.Keys| && |m.index.state| == |m.index.state.Keys|;
  }

  /** The final index, the final ledger and the released count depend on which references are
      dropped, not on the order in which namespaces and hashes are visited. */
  lemma OrderIsIrrelevant(m: StashState, a: seq<Forget>, b: seq<Forget>)
    requires WellFormed(m.index)
    requires forall f :: f in a <==> f in b
    ensures ForgetInOrder(m, a) == ForgetInOrder(m, b)
    ensures ReleasedInOrder(m, a) == ReleasedInOrder(m, b)
  {
    ForgetsAreOneDrop(m, a);
    ForgetsAreOneDrop(m, b);
    SameDrops(a, b);
  }

  lemma SameDrops(a: seq<Forget>, b: seq<Forget>)
    requires forall f :: f in a <==> f in b
    ensures DropsOf(a) == DropsOf(b)
  {
    forall ns ensures HashesFor(a, ns) == HashesFor(b, ns) {}
    assert DropsOf(a).Keys == DropsOf(b).Keys;
  }

  // ---------------------------------------------------------------------------------------------
  // How much a namespace can still hold
  // ---------------------------------------------------------------------------------------------

  function Fixes(entries: seq<DocEntry>): seq<Option<FixKey>> {
    Parsed(RetentionEntries(entries))
  }

  function Authors(fixes: seq<Option<FixKey>>): set<seq<byte>> {
    set i | 0 <= i < |fixes| && fixes[i].Some? :: fixes[i].value.author
  }

  /** Entries that are no fixes and have not expired. */
  function FreshOthers(entries: seq<DocEntry>, policy: RetentionPolicy, nowMs: nat): set<int> {
    set i | 0 <= i < |entries| && Fixes(entries)[i].None? && !policy.IsExpired(EntryWrittenMs(entries[i]), nowMs)
  }

  /** Which entries are past the window. */
  function ExpiredFlags(entries: seq<DocEntry>, policy: RetentionPolicy, nowMs: nat): (r: seq<bool>)
    ensures |r| == |entries|
  {
    seq(|entries|, i requires 0 <= i < |entries| => policy.IsExpired(EntryWrittenMs(entries[i]), nowMs))
  }

  predicate Survives(fixes: seq<Option<FixKey>>, expired: seq<bool>, i: nat)
    requires i < |fixes| == |expired|
  {
    fixes[i].Some? && !HasNewer(fixes, i) && !expired[i]
  }

  function Survivors(fixes: seq<Option<FixKey>>, expired: seq<bool>): set<int>
    requires |fixes| == |expired|
  {
    set i | 0 <= i < |fixes| && Survives(fixes, expired, i)
  }

  /** The authors a kept fix comes from. */
  function KeptAuthors(fixes: seq<Option<FixKey>>, expired: seq<bool>): set<seq<byte>>
    requires |fixes| == |expired|
  {
    set i | 0 <= i < |fixes| && Survives(fixes, expired, i) :: fixes[i].value.author
  }

  /** Of two entries with the same author and sequence one has expired, or a newer fix supersedes
      both. Two spellings of one key need not comply. */
  ghost predicate TiesSettled(fixes: seq<Option<FixKey>>, expired: seq<bool>)
    requires |fixes| == |expired|
  {
    forall i, j :: 0 <= i < j < |fixes| && fixes[i].Some? && fixes[i] == fixes[j] ==>
      HasNewer(fixes, i) || expired[i] || expired[j]
  }

  lemma {:induction false} ImageSize<I, T>(indices: set<I>, f: I --> T, image: set<T>)
    requires forall i :: i in indices ==> f.requires(i)
    requires forall t :: t in image ==> exists i :: i in indices && f(i) == t
    ensures |image| <= |indices|
  {
    if indices != {} {
      var x :| x in indices;
      ImageSize(indices - {x}, f, image - {f(x)});
    } else {
      assert image == {};
    }
  }

  lemma {:induction false} InjectionSize<I, T>(indices: set<I>, f: I --> T, range: set<T>)
    requires forall i :: i in indices ==> f.requires(i) && f(i) in range
    requires forall i, j :: i in indices && j in indices && f(i) == f(j) ==> i == j
    ensures |indices| <= |range|
  {
    if indices != {} {
      var x :| x in indices;
      InjectionSize(indices - {x}, f, range - {f(x)});
    }
  }

  /** Counted: the fixes that survive number their authors if and only if ties are settled. */
  lemma SurvivorsNumberAuthors(fixes: seq<Option<FixKey>>, expired: seq<bool>)
    requires |fixes| == |expired|
    ensures |Survivors(fixes, expired)| <= |KeptAuthors(fixes, expired)| <==> TiesSettled(fixes, expired)
  {
    var survivors, authors := Survivors(fixes, expired), KeptAuthors(fixes, expired);
    var f := (i: int) requires 0 <= i < |fixes| && fixes[i].Some? => fixes[i].value.author;
    if TiesSettled(fixes, expired) {
      forall i, j | i in survivors && j in survivors && f(i) == f(j) ensures i == j {
        UnsupersededFixesAgree(fixes, i, j);
      }
      InjectionSize(survivors, f, authors);
    } else {
      var i, j :| 0 <= i < j < |fixes| && fixes[i].Some? && fixes[i] == fixes[j]
        && !HasNewer(fixes, i) && !expired[i] && !expired[j];
      TieSurvives(fixes, expired, i, j);
      forall a | a in authors ensures exists k :: k in survivors - {i as int} && f(k) == a {
        var k :| 0 <= k < |fixes| && Survives(fixes, expired, k) && fixes[k].value.author == a;
        var other := if k == i then j else k;
        assert other in survivors - {i as int} && f(other) == a;
      }
      ImageSize(survivors - {i as int}, f, authors);
    }
  }

  lemma TieSurvives(fixes: seq<Option<FixKey>>, expired: seq<bool>, i: nat, j: nat)
    requires i < j < |fixes| == |expired| && fixes[i].Some? && fixes[i] == fixes[j]
    requires !HasNewer(fixes, i) && !expired[i] && !expired[j]
    ensures Survives(fixes, expired, i) && Survives(fixes, expired, j)
  {
    assert forall k :: 0 <= k < |fixes| ==> Supersedes(fixes[k], fixes[i]) == Supersedes(fixes[k], fixes[j]);
  }

  /** No two entries that a sweep keeps are fixes of one author. */
  ghost predicate OneKeptPerAuthor(entries: seq<DocEntry>, policy: RetentionPolicy, nowMs: nat) {
    forall i, j ::
      && 0 <= i < j < |entries|
      && Fixes(entries)[i].Some? && Fixes(entries)[j].Some?
      && Kept(entries, policy, nowMs, i) && Kept(entries, policy, nowMs, j) ==>
        Fixes(entries)[i].value.author != Fixes(entries)[j].value.author
  }

  lemma KeptFixSurvives(entries: seq<DocEntry>, policy: RetentionPolicy, nowMs: nat, i: nat)
    requires i < |entries|
    ensures Survives(Fixes(entries), ExpiredFlags(entries, policy, nowMs), i)
            <==> Fixes(entries)[i].Some? && Kept(entries, policy, nowMs, i)
  {
  }

  /** A sweep keeps at most one fix of each author if and only if, of any two entries with the same
      author and sequence, one has expired or a newer fix supersedes both. */
  lemma OneKeptFixPerAuthor(entries: seq<DocEntry>, policy: RetentionPolicy, nowMs: nat)
    ensures OneKeptPerAuthor(entries, policy, nowMs)
            <==> TiesSettled(Fixes(entries), ExpiredFlags(entries, policy, nowMs))
  {
    var fixes, expired := Fixes(entries), ExpiredFlags(entries, policy, nowMs);
    forall i: nat | i < |entries|
      ensures Survives(fixes, expired, i) <==> fixes[i].Some? && Kept(entries, policy, nowMs, i)
    {
      KeptFixSurvives(entries, policy, nowMs, i);
    }
    hide Kept, Fixes, ExpiredFlags;
    if OneKeptPerAuthor(entries, policy, nowMs) {
      forall i, j | 0 <= i < j < |fixes| && fixes[i].Some? && fixes[i] == fixes[j]
        && !HasNewer(fixes, i) && !expired[i]
        ensures expired[j]
      {
        if !expired[j] {
          TieSurvives(fixes, expired, i, j);
        }
      }
    }
    if TiesSettled(fixes, expired) {
      forall i, j | 0 <= i < j < |fixes| && Survives(fixes, expired, i) && Survives(fixes, expired, j)
        ensures fixes[i].value.author != fixes[j].value.author
      {
        if fixes[i].value.author == fixes[j].value.author {
          UnsupersededFixesAgree(fixes, i, j);
        }
      }
    }
  }

  /** The terms of the two bounds, read off the listing. */
  lemma ListingText(entries: seq<DocEntry>, policy: RetentionPolicy, nowMs: nat)
    ensures var fixes, expired := Fixes(entries), ExpiredFlags(entries, policy, nowMs);
            && (forall i :: 0 <= i < |entries| ==>
                  && fixes[i] == DecodeFixKey(entries[i].key)
                  && (expired[i] <==> entries[i].timestampUs + policy.retentionMs * 1_000 < nowMs * 1_000))
            && Authors(fixes)
               == (set i | 0 <= i < |entries| && DecodeFixKey(entries[i].key).Some? :: DecodeFixKey(entries[i].key).value.author)
            && FreshOthers(entries, policy, nowMs)
               == (set i | && 0 <= i < |entries| && DecodeFixKey(entries[i].key).None?
                           && entries[i].timestampUs + policy.retentionMs * 1_000 >= nowMs * 1_000)
            && KeptAuthors(fixes, expired)
               == (set i | && 0 <= i < |entries| && DecodeFixKey(entries[i].key).Some? && Kept(entries, policy, nowMs, i)
                         :: DecodeFixKey(entries[i].key).value.author)
            && (OneKeptPerAuthor(entries, policy, nowMs) <==>
                  forall i, j ::
                    && 0 <= i < j < |entries|
                    && DecodeFixKey(entries[i].key).Some? && DecodeFixKey(entries[j].key).Some?
                    && Kept(entries, policy, nowMs, i) && Kept(entries, policy, nowMs, j) ==>
                      DecodeFixKey(entries[i].key).value.author != DecodeFixKey(entries[j].key).value.author)
  {
    var fixes, expired := Fixes(entries), ExpiredFlags(entries, policy, nowMs);
    forall i | 0 <= i < |entries|
      ensures fixes[i] == DecodeFixKey(entries[i].key)
      ensures expired[i] <==> entries[i].timestampUs + policy.retentionMs * 1_000 < nowMs * 1_000
      ensures expired[i] == policy.IsExpired(EntryWrittenMs(entries[i]), nowMs)
      ensures Survives(fixes, expired, i) <==> fixes[i].Some? && Kept(entries, policy, nowMs, i)
    {
      ExpiryIsExactInMicroseconds(policy, entries[i], nowMs);
      KeptFixSurvives(entries, policy, nowMs, i);
    }
    hide DecodeFixKey, Fixes, ExpiredFlags, Kept, Survives;
  }

  /** And when ties are settled. */
  lemma TiesText(entries: seq<DocEntry>, policy: RetentionPolicy, nowMs: nat)
    ensures TiesSettled(Fixes(entries), ExpiredFlags(entries, policy, nowMs)) <==>
      forall i, j ::
        && 0 <= i < j < |entries|
        && DecodeFixKey(entries[i].key).Some? && DecodeFixKey(entries[i].key) == DecodeFixKey(entries[j].key) ==>
          || entries[i].timestampUs + policy.retentionMs * 1_000 < nowMs * 1_000
          || entries[j].timestampUs + policy.retentionMs * 1_000 < nowMs * 1_000
          || exists k ::
               && 0 <= k < |entries| && DecodeFixKey(entries[k].key).Some?
               && DecodeFixKey(entries[k].key).value.author == DecodeFixKey(entries[i].key).value.author
               && DecodeFixKey(entries[k].key).value.fixSeq > DecodeFixKey(entries[i].key).value.fixSeq
  {
    ListingText(entries, policy, nowMs);
    forall i | 0 <= i < |entries| && DecodeFixKey(entries[i].key).Some? {
      NewerText(entries, i);
    }
    hide DecodeFixKey, Fixes, ExpiredFlags, Kept, Authors, FreshOthers, KeptAuthors, OneKeptPerAuthor, HasNewer;
  }

  lemma NewerText(entries: seq<DocEntry>, i: nat)
    requires i < |entries| && DecodeFixKey(entries[i].key).Some?
    ensures HasNewer(Fixes(entries), i) <==>
      exists k ::
        && 0 <= k < |entries| && DecodeFixKey(entries[k].key).Some?
        && DecodeFixKey(entries[k].key).value.author == DecodeFixKey(entries[i].key).value.author
        && DecodeFixKey(entries[k].key).value.fixSeq > DecodeFixKey(entries[i].key).value.fixSeq
  {
    var fixes := Fixes(entries);
    forall k | 0 <= k < |entries| ensures fixes[k] == DecodeFixKey(entries[k].key) {}
    hide DecodeFixKey, Fixes;
    if HasNewer(fixes, i) {
      var k :| 0 <= k < |fixes| && Supersedes(fixes[k], fixes[i]);
      assert fixes[k] == DecodeFixKey(entries[k].key);
    }
    forall k | 0 <= k < |entries| && DecodeFixKey(entries[k].key).Some?
      && DecodeFixKey(entries[k].key).value.author == DecodeFixKey(entries[i].key).value.author
      && DecodeFixKey(entries[k].key).value.fixSeq > DecodeFixKey(entries[i].key).value.fixSeq
      ensures HasNewer(fixes, i)
    {
      assert Supersedes(fixes[k], fixes[i]);
    }
  }

  /** What is kept is named by a surviving fix or by a fresh other entry. */
  lemma KeptIsSurvivorOrFresh(entries: seq<DocEntry>, policy: RetentionPolicy, nowMs: nat, i: nat)
    requires i < |entries| && Kept(entries, policy, nowMs, i)
    ensures i in Survivors(Fixes(entries), ExpiredFlags(entries, policy, nowMs)) + FreshOthers(entries, policy, nowMs)
  {
    KeptFixSurvives(entries, policy, nowMs, i);
  }

  lemma KeptHashesAreFew(entries: seq<DocEntry>, policy: RetentionPolicy, nowMs: nat)
    ensures |KeptHashes(entries, policy, nowMs)|
            <= |Survivors(Fixes(entries), ExpiredFlags(entries, policy, nowMs))| + |FreshOthers(entries, policy, nowMs)|
  {
    var survivors, others := Survivors(Fixes(entries), ExpiredFlags(entries, policy, nowMs)), FreshOthers(entries, policy, nowMs);
    forall i | 0 <= i < |entries| && Kept(entries, policy, nowMs, i) ensures i in survivors + others {
      KeptIsSurvivorOrFresh(entries, policy, nowMs, i);
    }
    assert forall i :: i in survivors + others ==> 0 <= i < |entries|;
    hide Kept, Survivors, FreshOthers;
    HashesNamedBy(entries, survivors + others, KeptHashes(entries, policy, nowMs));
  }

  /** Entries name no more hashes than there are entries. */
  lemma HashesNamedBy(entries: seq<DocEntry>, indices: set<int>, hashes: set<ContentHash>)
    requires forall i :: i in indices ==> 0 <= i < |entries|
    requires forall h :: h in hashes ==> exists i :: i in indices && entries[i].hash == h
    ensures |hashes| <= |indices|
  {
    var f := (i: int) requires 0 <= i < |entries| => entries[i].hash;
    forall h | h in hashes ensures exists i :: i in indices && f(i) == h {
      var i :| i in indices && entries[i].hash == h;
      assert f(i) == h;
    }
    ImageSize(indices, f, hashes);
  }

  lemma {:induction false} SubsetSize<T>(a: set<T>, b: set<T>)
    requires a <= b
    ensures |a| <= |b|
  {
    if a != {} {
      var x :| x in a;
      SubsetSize(a - {x}, b - {x});
    }
  }

  /** What a namespace still holds, among the hashes its entries name, is what kept entries name. */
  lemma HeldIsKept(cfg: Config, m: StashState, docs: Listing, visited: set<NamespaceId>, nowMs: nat, ns: NamespaceId)
    requires visited <= docs.Keys && ns in visited
    ensures Names(Swept(cfg, m, docs, visited, nowMs).index.byNamespace, ns) * NamedHashes(docs[ns])
            <= KeptHashes(docs[ns], cfg.retention, nowMs)
  {
    hide KeptHashes, NamedHashes, Release;
    ReleaseNames(m.index, Restrict(SweepPlan(cfg, docs, nowMs), visited), ns);
  }

  /** After a sweep that is at most one per author with a kept fix, plus one per fresh entry that is
      no fix. */
  lemma HoldingsAreBounded(cfg: Config, m: StashState, docs: Listing, visited: set<NamespaceId>, nowMs: nat, ns: NamespaceId)
    requires visited <= docs.Keys && ns in visited
    requires TiesSettled(Fixes(docs[ns]), ExpiredFlags(docs[ns], cfg.retention, nowMs))
    ensures var after, entries := Swept(cfg, m, docs, visited, nowMs), docs[ns];
            var authors := KeptAuthors(Fixes(entries), ExpiredFlags(entries, cfg.retention, nowMs));
            && |Names(after.index.byNamespace, ns) * NamedHashes(entries)|
               <= |authors| + |FreshOthers(entries, cfg.retention, nowMs)|
            && authors <= Authors(Fixes(entries))
  {
    var entries := docs[ns];
    var fixes, expired := Fixes(entries), ExpiredFlags(entries, cfg.retention, nowMs);
    assert KeptAuthors(fixes, expired) <= Authors(fixes);
    var held := Names(Swept(cfg, m, docs, visited, nowMs).index.byNamespace, ns) * NamedHashes(entries);
    hide Swept, Fixes, ExpiredFlags, KeptHashes, NamedHashes, FreshOthers, Survivors, KeptAuthors, Authors, TiesSettled;
    HeldIsKept(cfg, m, docs, visited, nowMs, ns);
    SubsetSize(held, KeptHashes(entries, cfg.retention, nowMs));
    KeptHashesAreFew(entries, cfg.retention, nowMs);
    SurvivorsNumberAuthors(fixes, expired);
  }

  /** The hypothesis is needed: one author written in both cases gives two entries with the same
      author and sequence, neither supersedes the other, and both contents are kept. */
  lemma TwoSpellingsAreBothKept(policy: RetentionPolicy, nowMs: nat, a: ContentHash, b: ContentHash)
    requires a != b
    ensures var lower := PrintFixKey(FixKey([0xAB], 1));
            var upper := ['A' as int, 'B' as int] + lower[2..];
            var entries := [DocEntry(a, lower, nowMs * 1_000), DocEntry(b, upper, nowMs * 1_000)];
            && Authors(Fixes(entries)) == {[0xAB]} && FreshOthers(entries, policy, nowMs) == {}
            && KeptHashes(entries, policy, nowMs) == {a, b}
  {
    var fix := FixKey([0xAB], 1);
    var lower := PrintFixKey(fix);
    var upper := ['A' as int, 'B' as int] + lower[2..];
    var entries := [DocEntry(a, lower, nowMs * 1_000), DocEntry(b, upper, nowMs * 1_000)];
    hide DecodeFixKey, PrintFixKey, KeptHashes, FreshOthers, Authors;
    TwoSpellingsDecodeAlike();
    ListingText(entries, policy, nowMs);
    hide RetentionEntries, Fixes;
    assert entries[0].key == lower && entries[1].key == upper;
    assert Fixes(entries) == [Some(fix), Some(fix)];
    BothKept(entries, policy, nowMs, fix);
  }

  lemma BothKept(entries: seq<DocEntry>, policy: RetentionPolicy, nowMs: nat, fix: FixKey)
    requires |entries| == 2 && Fixes(entries) == [Some(fix), Some(fix)]
    requires forall i :: 0 <= i < 2 ==> entries[i].timestampUs == nowMs * 1_000
    ensures Authors(Fixes(entries)) == {fix.author} && FreshOthers(entries, policy, nowMs) == {}
    ensures KeptHashes(entries, policy, nowMs) == {entries[0].hash, entries[1].hash}
  {
    var fixes := Fixes(entries);
    assert Authors(fixes) == {fixes[0].value.author};
    BothStay(entries, policy, nowMs, fix, 0);
    BothStay(entries, policy, nowMs, fix, 1);
    assert KeptHashes(entries, policy, nowMs) == {entries[0].hash, entries[1].hash};
  }

  lemma BothStay(entries: seq<DocEntry>, policy: RetentionPolicy, nowMs: nat, fix: FixKey, i: nat)
    requires |entries| == 2 && Fixes(entries) == [Some(fix), Some(fix)] && i < 2
    requires entries[i].timestampUs == nowMs * 1_000
    ensures Kept(entries, policy, nowMs, i) && entries[i].hash in KeptHashes(entries, policy, nowMs)
  {
  }

  lemma TwoSpellingsDecodeAlike()
    ensures var fix := FixKey([0xAB], 1);
            var lower := PrintFixKey(fix);
            var upper := ['A' as int, 'B' as int] + lower[2..];
            DecodeFixKey(lower) == DecodeFixKey(upper) == Some(fix)
  {
    var fix := FixKey([0xAB], 1);
    var lower := PrintFixKey(fix);
    var upper := ['A' as int, 'B' as int] + lower[2..];
    hide DecodeFixKey, ZeroPadded;
    PrintThenDecode(fix);
    DecodeThenPrint(lower);
    assert HexCodec.Encode([0xAB]) == ['a' as int, 'b' as int];
    forall i | 0 <= i < |lower| ensures Lowercase(upper)[i] == lower[i] {
      assert Lowercase(lower)[i] == ToLower(lower[i]);
    }
    assert Lowercase(upper) == lower;
    DecodesExactlyPrintedKeys(upper, fix);
  }
}
