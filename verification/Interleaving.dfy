/** The handlers at lock granularity. Each step is what one handler does while it holds one lock; any
    step may follow any other, which covers every interleaving of arrivals, passes, uploads and
    sweeps. Two invariants survive. The coupling of index and ledger does not. */
module Interleaving {
  import opened Ids
  import opened Content
  import opened Stash

  datatype LockStep =
    | Want(ns: NamespaceId, hash: ContentHash)                     // arrival: content lock
    | Insert(hash: ContentHash, entry: TrackedEntry)               // arrival: ledger lock
    | MarkPresent(hash: ContentHash)                               // arrival, upload: content lock
    | Update(hash: ContentHash, seen: TrackedEntry, ready: bool, nowMs: nat)  // pass: ledger lock, then content lock in it
    | Forget(ns: NamespaceId, hash: ContentHash)                   // sweep: content lock
    | Remove(hash: ContentHash)                                    // sweep: ledger lock
    | Look                                                         // a question to the store or to the index
    | Land(hash: ContentHash)                                      // bytes reach the store
    | Collect(victims: set<ContentHash>)                           // bytes leave it

  datatype Locks = Locks(index: IndexState, ledger: map<ContentHash, TrackedEntry>, stored: set<ContentHash>)

  const START := Locks(IndexState(map[], map[]), map[], {})

  /** An arriving entry is inserted with its wake flag equal to its presence flag. */
  predicate FromHandler(step: LockStep) {
    step.Insert? ==> step.entry.woken == step.entry.contentPresent
  }

  /** A pass skips an entry that is gone, and then marks nothing either. */
  function Apply(s: Locks, step: LockStep): Locks {
    match step
    case Want(ns, hash) => s.(index := WithReference(s.index, ns, hash))
    case Insert(hash, entry) => if hash in s.ledger then s else s.(ledger := s.ledger[hash := entry])
    case MarkPresent(hash) => s.(index := WithPresent(s.index, hash))
    case Update(hash, seen, ready, nowMs) =>
      if hash in s.ledger then
        s.(ledger := s.ledger[hash := UpdatedEntry(s.ledger[hash], seen, ready, nowMs)],
           index := if ready then WithPresent(s.index, hash) else s.index)
      else s
    case Forget(ns, hash) => s.(index := Release(s.index, map[ns := {hash}]))
    case Remove(hash) => s.(ledger := s.ledger - {hash})
    case Look => s
    case Land(hash) => s.(stored := s.stored + {hash})
    case Collect(victims) => s.(stored := s.stored - victims)
  }

  function Replay(steps: seq<LockStep>): Locks {
    if steps == [] then START else Apply(Replay(steps[..|steps| - 1]), steps[|steps| - 1])
  }

  ghost predicate Sound(s: Locks) {
    WellFormed(s.index) && forall h :: h in s.ledger && s.ledger[h].contentPresent ==> s.ledger[h].woken
  }

  /** Whatever interleaves, the index is well formed, and an entry whose bytes are here has been
      woken for, so the pass's filter never hides an entry that is still owed a wake. */
  lemma {:induction false} SurvivesInterleaving(steps: seq<LockStep>)
    requires forall k :: 0 <= k < |steps| ==> FromHandler(steps[k])
    ensures Sound(Replay(steps))
  {
    if steps != [] {
      var front, last := steps[..|steps| - 1], steps[|steps| - 1];
      SurvivesInterleaving(front);
      assert FromHandler(last);
      IndexStep(Replay(front), last);
    }
  }

  lemma IndexStep(s: Locks, step: LockStep)
    requires WellFormed(s.index)
    ensures WellFormed(Apply(s, step).index)
  {
    match step
    case Want(ns, hash) => ReferenceKeepsWellFormed(s.index, ns, hash);
    case Forget(ns, hash) => ReleaseKeepsWellFormed(s.index, map[ns := {hash}]);
    case _ =>
  }

  // ---------------------------------------------------------------------------------------------
  // When index and ledger agree
  // ---------------------------------------------------------------------------------------------

  /** The last step that names `h` for `ns` is a want. */
  predicate LastWanted(steps: seq<LockStep>, ns: NamespaceId, h: ContentHash) {
    steps != [] &&
    var front, last := steps[..|steps| - 1], steps[|steps| - 1];
    last == Want(ns, h) || (last != Forget(ns, h) && LastWanted(front, ns, h))
  }

  /** The last insertion or removal of `h` is an insertion. */
  predicate LastInserted(steps: seq<LockStep>, h: ContentHash) {
    steps != [] &&
    var front, last := steps[..|steps| - 1], steps[|steps| - 1];
    (last.Insert? && last.hash == h) || (last != Remove(h) && LastInserted(front, h))
  }

  lemma {:induction false} HistoryDecidesNames(steps: seq<LockStep>, ns: NamespaceId, h: ContentHash)
    ensures TrackedFor(Replay(steps).index, ns, h) <==> LastWanted(steps, ns, h)
  {
    if steps != [] {
      HistoryDecidesNames(steps[..|steps| - 1], ns, h);
      NamesStep(Replay(steps[..|steps| - 1]), steps[|steps| - 1], ns, h);
    }
  }

  lemma NamesStep(s: Locks, step: LockStep, ns: NamespaceId, h: ContentHash)
    ensures TrackedFor(Apply(s, step).index, ns, h) <==>
            step == Want(ns, h) || (step != Forget(ns, h) && TrackedFor(s.index, ns, h))
  {
  }

  lemma {:induction false} HistoryDecidesLedger(steps: seq<LockStep>, h: ContentHash)
    ensures h in Replay(steps).ledger <==> LastInserted(steps, h)
  {
    if steps != [] {
      HistoryDecidesLedger(steps[..|steps| - 1], h);
    }
  }

  /** Every reference counts, and nothing else does. */
  lemma HistoryDecidesState(steps: seq<LockStep>, h: ContentHash)
    requires forall k :: 0 <= k < |steps| ==> FromHandler(steps[k])
    ensures h in Replay(steps).index.state <==> exists ns :: LastWanted(steps, ns, h)
  {
    SurvivesInterleaving(steps);
    var index := Replay(steps).index;
    hide Replay, LastWanted;
    if h in index.state {
      var ns :| ns in index.byNamespace && h in index.byNamespace[ns];
      HistoryDecidesNames(steps, ns, h);
    }
    if ns :| LastWanted(steps, ns, h) {
      HistoryDecidesNames(steps, ns, h);
      assert Named(index.byNamespace, h);
    }
  }

  /** In every interleaving, index and ledger agree about `h` if and only if these coincide: some
      namespace's last step about it is a want; its last insertion or removal is an insertion. */
  lemma AgreeExactly(steps: seq<LockStep>, h: ContentHash)
    requires forall k :: 0 <= k < |steps| ==> FromHandler(steps[k])
    ensures var s := Replay(steps);
            (h in s.index.state <==> h in s.ledger)
            <==> ((exists ns :: LastWanted(steps, ns, h)) <==> LastInserted(steps, h))
  {
    HistoryDecidesState(steps, h);
    HistoryDecidesLedger(steps, h);
  }

  // ---------------------------------------------------------------------------------------------
  // What a disagreement costs
  // ---------------------------------------------------------------------------------------------

  function SettledPasses(m: StashState, passes: seq<(nat, Downloads)>): StashState {
    if passes == [] then m
    else Settled(SettledPasses(m, passes[..|passes| - 1]), passes[|passes| - 1].0, passes[|passes| - 1].1)
  }

  /** A wanted hash that no ledger entry stands for stays missing through any number of passes, even
      ones that could fetch it or find it in the store. */
  lemma {:induction false} OrphanIsNeverSettled(m: StashState, passes: seq<(nat, Downloads)>, h: ContentHash)
    requires h in Missing(m.index) && h !in m.tracked
    ensures var after := SettledPasses(m, passes);
            h in Missing(after.index) && h !in after.tracked
  {
    if passes != [] {
      OrphanIsNeverSettled(m, passes[..|passes| - 1], h);
    }
  }
}
