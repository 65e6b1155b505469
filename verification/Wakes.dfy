/** Exactly which lifetimes are woken for, and exactly which are woken for twice. */
module Wakes {
  import opened Bytes
  import opened Ids
  import opened Stash
  import opened Protocol
  import opened Timing
  import opened Delivery

  // ---------------------------------------------------------------------------------------------
  // More than one wake
  // ---------------------------------------------------------------------------------------------

  /** A step at which a wake for `h` could be asked for: a pass, or a re-delivery of `h`. */
  predicate Occasion(step: Step, h: ContentHash) {
    step.Settle? || (step.Arrive? && step.entry.hash == h)
  }

  ghost predicate WokenTwice(cfg: Config, steps: seq<Step>, a: nat, b: nat, h: ContentHash)
    requires b <= |steps|
  {
    exists i: nat, j: nat :: a <= i < j < b && WakesAt(cfg, steps, i, h) && WakesAt(cfg, steps, j, h)
  }

  /** A re-delivery found the bytes of an entry still unwoken, and another occasion follows it. */
  ghost predicate RedeliveredThenVisited(cfg: Config, steps: seq<Step>, a: nat, b: nat, h: ContentHash)
    requires b <= |steps|
  {
    exists i: nat, j: nat :: a <= i < j < b && ArrivalWakesAt(cfg, steps, i, h) && Occasion(steps[j], h)
  }

  lemma {:induction false} FirstSettle(steps: seq<Step>, lo: nat, hi: nat) returns (k: nat)
    requires lo <= hi <= |steps|
    ensures lo <= k <= hi && forall l :: lo <= l < k ==> !steps[l].Settle?
    ensures k < hi ==> steps[k].Settle?
    decreases hi - lo
  {
    if lo == hi || steps[lo].Settle? {
      k := lo;
    } else {
      k := FirstSettle(steps, lo + 1, hi);
    }
  }

  /** After a wake by a re-delivery, the next occasion wakes again. */
  lemma NextOccasionWakesAgain(cfg: Config, steps: seq<Step>, i: nat, j: nat, h: ContentHash) returns (k: nat)
    requires Legal(cfg, EMPTY, steps) && i < j < |steps| && Lifetime(cfg, steps, i, j, h)
    requires ArrivalWakesAt(cfg, steps, i, h) && Occasion(steps[j], h)
    ensures i < k <= j && WakesAt(cfg, steps, k, h)
  {
    hide Next;
    k := FirstSettle(steps, i + 1, j);
    if k < j || steps[j].Settle? {
      assert Lifetime(cfg, steps, i, k, h);
      ArrivalWakeIsRepeated(cfg, steps, i, k, h);
    } else {
      StaysStoredAndUnwoken(cfg, steps, i, j, h);
    }
  }

  /** A stretch of a lifetime holds two wakes or more if and only if a re-delivery in it wakes and a
      pass or another re-delivery of the hash follows. */
  lemma TwoWakesExactly(cfg: Config, steps: seq<Step>, a: nat, b: nat, h: ContentHash)
    requires Legal(cfg, EMPTY, steps) && Lifetime(cfg, steps, a, b, h)
    ensures WokenTwice(cfg, steps, a, b, h) <==> RedeliveredThenVisited(cfg, steps, a, b, h)
  {
    hide Next, Run;
    if WokenTwice(cfg, steps, a, b, h) {
      var i: nat, j: nat :| a <= i < j < b && WakesAt(cfg, steps, i, h) && WakesAt(cfg, steps, j, h);
      if SettleWakesAt(cfg, steps, i, h) {
        assert Lifetime(cfg, steps, i, j, h);
        SettleWakesOnce(cfg, steps, i, j, h);
      }
      assert ArrivalWakesAt(cfg, steps, i, h) && Occasion(steps[j], h);
    }
    if RedeliveredThenVisited(cfg, steps, a, b, h) {
      var i: nat, j: nat :| a <= i < j < b && ArrivalWakesAt(cfg, steps, i, h) && Occasion(steps[j], h);
      assert Lifetime(cfg, steps, i, j, h);
      var k := NextOccasionWakesAgain(cfg, steps, i, j, h);
      assert WakesAt(cfg, steps, i, h) && WakesAt(cfg, steps, k, h);
    }
  }

  // ---------------------------------------------------------------------------------------------
  // No wake, or its one wake
  // ---------------------------------------------------------------------------------------------

  /** The arrival at step `a` put `h` on the ledger, where it stays up to state `b`. */
  ghost predicate Entered(cfg: Config, steps: seq<Step>, a: nat, b: nat, h: ContentHash) {
    a < b <= |steps| && h !in At(cfg, steps, a).tracked && Lifetime(cfg, steps, a + 1, b, h)
  }

  ghost predicate PassWokeIn(cfg: Config, steps: seq<Step>, a: nat, b: nat, h: ContentHash)
    requires b <= |steps|
  {
    exists k: nat :: a < k < b && SettleWakesAt(cfg, steps, k, h)
  }

  lemma PassWokeInStep(cfg: Config, steps: seq<Step>, a: nat, b: nat, h: ContentHash)
    requires a + 1 < b <= |steps|
    ensures PassWokeIn(cfg, steps, a, b, h) <==>
            PassWokeIn(cfg, steps, a, b - 1, h) || SettleWakesAt(cfg, steps, b - 1, h)
  {
    hide Next, Run, SettleWakes;
    if PassWokeIn(cfg, steps, a, b, h) {
      var k: nat :| a < k < b && SettleWakesAt(cfg, steps, k, h);
      assert k < b - 1 || k == b - 1;
    }
    if PassWokeIn(cfg, steps, a, b - 1, h) {
      var k: nat :| a < k < b - 1 && SettleWakesAt(cfg, steps, k, h);
      assert k < b;
    }
  }

  lemma WakeFlagStep(cfg: Config, steps: seq<Step>, k: nat, h: ContentHash)
    requires k < |steps| && h in At(cfg, steps, k).tracked && h in At(cfg, steps, k + 1).tracked
    ensures At(cfg, steps, k + 1).tracked[h].woken <==>
            At(cfg, steps, k).tracked[h].woken || SettleWakesAt(cfg, steps, k, h)
  {
    AtNext(cfg, steps, k);
    OnlySettleChangesEntries(cfg, At(cfg, steps, k), steps[k], h);
  }

  /** An entry is marked woken exactly when its bytes were here on its first arrival, or a pass of its
      lifetime has woken for it. */
  lemma {:induction false} WokenExactly(cfg: Config, steps: seq<Step>, a: nat, b: nat, h: ContentHash)
    requires Entered(cfg, steps, a, b, h)
    ensures h in At(cfg, steps, b).tracked
    ensures At(cfg, steps, b).tracked[h].woken <==>
            h in At(cfg, steps, a).blobs || PassWokeIn(cfg, steps, a, b, h)
    decreases b
  {
    hide Next;
    if b == a + 1 {
      AtNext(cfg, steps, a);
      NewcomersAreFresh(cfg, At(cfg, steps, a), steps[a], h);
    } else {
      var c := b - 1;
      assert Entered(cfg, steps, a, c, h);
      WokenExactly(cfg, steps, a, c, h);
      WakeFlagStep(cfg, steps, c, h);
      PassWokeInStep(cfg, steps, a, b, h);
    }
  }

  /** A pass has woken for the lifetime if and only if it is marked woken and its bytes were absent
      when it began. Where they were here, no pass and no re-delivery ever wakes for it. */
  lemma PassWakesExactly(cfg: Config, steps: seq<Step>, a: nat, b: nat, h: ContentHash)
    requires Entered(cfg, steps, a, b, h)
    ensures h in At(cfg, steps, b).tracked
    ensures PassWokeIn(cfg, steps, a, b, h) <==>
            At(cfg, steps, b).tracked[h].woken && h !in At(cfg, steps, a).blobs
    ensures h in At(cfg, steps, a).blobs ==> forall k :: a < k < b ==> !WakesAt(cfg, steps, k, h)
  {
    hide Next, Run;
    WokenExactly(cfg, steps, a, b, h);
    if h in At(cfg, steps, a).blobs {
      EnteredByArrival(cfg, steps, a, b, h);
      forall k: nat | a < k < b ensures !WakesAt(cfg, steps, k, h) && !SettleWakesAt(cfg, steps, k, h) {
        assert Lifetime(cfg, steps, a + 1, k + 1, h);
        PresentOnArrivalIsNeverWoken(cfg, steps, a, k, h);
      }
    }
  }

  lemma EnteredByArrival(cfg: Config, steps: seq<Step>, a: nat, b: nat, h: ContentHash)
    requires Entered(cfg, steps, a, b, h)
    ensures steps[a].Arrive? && steps[a].entry.hash == h
    ensures h in At(cfg, steps, a + 1).tracked
    ensures At(cfg, steps, a + 1).tracked[h].ns == steps[a].ns
    ensures At(cfg, steps, a + 1).tracked[h].firstSeenMs == steps[a].nowMs
  {
    AtNext(cfg, steps, a);
    NewcomersAreFresh(cfg, At(cfg, steps, a), steps[a], h);
  }

  /** Whose entry it is and when it was first seen are fixed for the lifetime. */
  lemma {:induction false} IdentityStays(cfg: Config, steps: seq<Step>, a: nat, b: nat, h: ContentHash)
    requires Lifetime(cfg, steps, a, b, h)
    ensures h in At(cfg, steps, a).tracked && h in At(cfg, steps, b).tracked
    ensures var first, last := At(cfg, steps, a).tracked[h], At(cfg, steps, b).tracked[h];
            last.ns == first.ns && last.author == first.author && last.fixSeq == first.fixSeq
            && last.deliveredBy == first.deliveredBy && last.firstSeenMs == first.firstSeenMs
    decreases b
  {
    hide Next;
    if a < b {
      var c := b - 1;
      assert Lifetime(cfg, steps, a, c, h);
      IdentityStays(cfg, steps, a, c, h);
      AtNext(cfg, steps, c);
      OnlySettleChangesEntries(cfg, At(cfg, steps, c), steps[c], h);
    }
  }

  /** An entry that came without its bytes gets its wake: at the latest from the first pass that finds
      them, or from the first that comes 30 s after the arrival. */
  lemma AbsentOnArrivalGetsItsWake(cfg: Config, steps: seq<Step>, a: nat, k: nat, h: ContentHash)
    requires Legal(cfg, EMPTY, steps) && a < k < |steps| && Entered(cfg, steps, a, k + 1, h)
    requires h !in At(cfg, steps, a).blobs
    requires steps[k].Settle? && h in At(cfg, steps, k).tracked
    requires steps[a].Arrive?
    requires Ready(At(cfg, steps, k), steps[k].nowMs, steps[k].downloads, h) || Overdue(steps[a].nowMs, steps[k].nowMs)
    ensures PassWokeIn(cfg, steps, a, k + 1, h)
  {
    hide Next;
    EnteredByArrival(cfg, steps, a, k + 1, h);
    assert Lifetime(cfg, steps, a + 1, k, h);
    IdentityStays(cfg, steps, a + 1, k, h);
    LegalPrefix(cfg, steps, k);
    AtNext(cfg, steps, k);
    OnlySettleChangesEntries(cfg, At(cfg, steps, k), steps[k], h);
    PassWakesExactly(cfg, steps, a, k + 1, h);
  }

  /** A hash that two namespaces name is woken for in the first one's name only: every pass of the
      lifetime wakes for the namespace whose arrival began it. */
  lemma OnlyFirstNamespaceIsWoken(cfg: Config, steps: seq<Step>, a: nat, k: nat, h: ContentHash)
    requires a < k < |steps| && Entered(cfg, steps, a, k, h) && SettleWakesAt(cfg, steps, k, h)
    ensures steps[a].Arrive? && h in At(cfg, steps, k).tracked
    ensures At(cfg, steps, k).tracked[h].ns == steps[a].ns
  {
    hide Next;
    EnteredByArrival(cfg, steps, a, k, h);
    IdentityStays(cfg, steps, a + 1, k, h);
  }

  // ---------------------------------------------------------------------------------------------
  // Such runs exist
  // ---------------------------------------------------------------------------------------------

  /** The record arrives, then the bytes, then the record again, then `last`. */
  function RedeliveryRun(cfg: Config, ns: NamespaceId, entry: DocEntry, from: EndpointId, bytes: seq<byte>, last: Step): seq<Step> {
    [Register(ns), Arrive(ns, entry, from, 0), BlobAppears(bytes), Arrive(ns, entry, from, 0), last]
  }

  lemma RegisterStep(cfg: Config, m: StashState, ns: NamespaceId)
    ensures var after := Next(cfg, m, Register(ns));
            after.known == m.known + {ns} && after.tracked == m.tracked && after.blobs == m.blobs
  {
  }

  lemma BlobStep(cfg: Config, m: StashState, bytes: seq<byte>)
    ensures var after := Next(cfg, m, BlobAppears(bytes));
            && after.known == m.known && after.tracked == m.tracked
            && after.blobs.Keys == m.blobs.Keys + {cfg.digest(bytes)}
            && (cfg.digest(bytes) !in m.blobs ==> after.blobs[cfg.digest(bytes)] == bytes)
  {
  }

  lemma ArriveStep(cfg: Config, m: StashState, ns: NamespaceId, entry: DocEntry, from: EndpointId, nowMs: nat)
    ensures var h, after := entry.hash, Next(cfg, m, Arrive(ns, entry, from, nowMs));
            && after == Arrived(m, ns, entry, from, nowMs)
            && after.known == m.known && after.blobs == m.blobs && h in after.tracked
            && after.tracked[h].woken == (if h in m.tracked then m.tracked[h].woken else h in m.blobs)
  {
  }

  lemma RedeliveryStates(cfg: Config, ns: NamespaceId, entry: DocEntry, from: EndpointId, bytes: seq<byte>, last: Step)
    requires cfg.digest(bytes) == entry.hash
    ensures var h, steps := entry.hash, RedeliveryRun(cfg, ns, entry, from, bytes, last);
            && ns in At(cfg, steps, 1).known && h in At(cfg, steps, 2).tracked && !At(cfg, steps, 2).tracked[h].woken
            && ns in At(cfg, steps, 3).known && ArrivalWakes(At(cfg, steps, 3), h)
            && ns in At(cfg, steps, 4).known && h in At(cfg, steps, 4).tracked
  {
    hide Next;
    var steps := RedeliveryRun(cfg, ns, entry, from, bytes, last);
    assert steps[..0] == [];
    AtNext(cfg, steps, 0);
    RegisterStep(cfg, At(cfg, steps, 0), ns);
    AtNext(cfg, steps, 1);
    ArriveStep(cfg, At(cfg, steps, 1), ns, entry, from, 0);
    AtNext(cfg, steps, 2);
    BlobStep(cfg, At(cfg, steps, 2), bytes);
    AtNext(cfg, steps, 3);
    ArriveStep(cfg, At(cfg, steps, 3), ns, entry, from, 0);
  }

  /** The last step may be a pass, or a second re-delivery with no pass between: either way the
      lifetime is woken for twice. */
  lemma TwoWakesInOneLifetime(cfg: Config, ns: NamespaceId, entry: DocEntry, from: EndpointId, bytes: seq<byte>, last: Step)
    requires cfg.digest(bytes) == entry.hash
    requires last == Settle(0, map[]) || last == Arrive(ns, entry, from, 0)
    ensures var steps := RedeliveryRun(cfg, ns, entry, from, bytes, last);
            && Legal(cfg, EMPTY, steps) && Lifetime(cfg, steps, 2, 5, entry.hash)
            && WokenTwice(cfg, steps, 2, 5, entry.hash)
  {
    hide Next;
    var h, steps := entry.hash, RedeliveryRun(cfg, ns, entry, from, bytes, last);
    RedeliveryStates(cfg, ns, entry, from, bytes, last);
    assert steps[..5] == steps;
    forall i | 0 <= i < 5 ensures Enabled(cfg, At(cfg, steps, i), steps[i]) {
      assert i == 0 || i == 1 || i == 2 || i == 3 || i == 4;
    }
    LegalFromSteps(cfg, steps, 5);
    AtNext(cfg, steps, 4);
    LastStepKeepsTracked(cfg, At(cfg, steps, 4), last, h);
    assert Lifetime(cfg, steps, 2, 5, h);
    assert ArrivalWakesAt(cfg, steps, 3, h) && Occasion(steps[4], h);
    TwoWakesExactly(cfg, steps, 2, 5, h);
  }

  lemma LastStepKeepsTracked(cfg: Config, m: StashState, step: Step, h: ContentHash)
    requires h in m.tracked && (step.Settle? || step.Arrive?)
    ensures h in Next(cfg, m, step).tracked
  {
  }

  /** The bytes are here before the record: the entry is servable and no wake was asked for. */
  lemma PresentOnArrivalHappens(cfg: Config, ns: NamespaceId, entry: DocEntry, from: EndpointId, bytes: seq<byte>)
    requires cfg.digest(bytes) == entry.hash
    ensures var steps := [Register(ns), BlobAppears(bytes), Arrive(ns, entry, from, 0)];
            && Legal(cfg, EMPTY, steps) && Entered(cfg, steps, 2, 3, entry.hash)
            && entry.hash in At(cfg, steps, 2).blobs
            && !WakesAt(cfg, steps, 2, entry.hash)
            && Served(At(cfg, steps, 3), ns, entry.hash) == Some(bytes)
  {
    hide Next, Arrived;
    var steps := [Register(ns), BlobAppears(bytes), Arrive(ns, entry, from, 0)];
    assert steps[..0] == [] && steps[..3] == steps;
    AtNext(cfg, steps, 0);
    RegisterStep(cfg, At(cfg, steps, 0), ns);
    AtNext(cfg, steps, 1);
    BlobStep(cfg, At(cfg, steps, 1), bytes);
    AtNext(cfg, steps, 2);
    ArriveStep(cfg, At(cfg, steps, 2), ns, entry, from, 0);
    forall i | 0 <= i < 3 ensures Enabled(cfg, At(cfg, steps, i), steps[i]) {
      assert i == 0 || i == 1 || i == 2;
    }
    LegalFromSteps(cfg, steps, 3);
    LegalPrefix(cfg, steps, 2);
    ArrivalIsAccounted(cfg, At(cfg, steps, 2), ns, entry, from, 0, ns, entry.hash);
  }
}
