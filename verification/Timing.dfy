/** Wakes and retries over whole runs. A lifetime of a hash is a stretch of a run through which the
    ledger tracks it. Clocks are read afresh by every handler and need not be monotone. */
module Timing {
  import opened Bytes
  import opened Ids
  import opened FixKeys
  import opened Stash
  import opened Protocol

  /** The state before step `k`. */
  function At(cfg: Config, steps: seq<Step>, k: nat): StashState
    requires k <= |steps|
  {
    Run(cfg, EMPTY, steps[..k])
  }

  lemma AtNext(cfg: Config, steps: seq<Step>, k: nat)
    requires k < |steps|
    ensures At(cfg, steps, k + 1) == Next(cfg, At(cfg, steps, k), steps[k])
  {
    assert steps[..k + 1][..k] == steps[..k];
  }

  lemma {:induction false} LegalPrefix(cfg: Config, steps: seq<Step>, k: nat)
    requires Legal(cfg, EMPTY, steps) && k <= |steps|
    ensures Legal(cfg, EMPTY, steps[..k]) && Inv(cfg, At(cfg, steps, k))
    ensures k < |steps| ==> Enabled(cfg, At(cfg, steps, k), steps[k])
  {
    var n := |steps| - 1;
    if k == |steps| {
      assert steps[..k] == steps;
    } else if k == n {
    } else {
      LegalPrefix(cfg, steps[..n], k);
      assert steps[..n][..k] == steps[..k];
    }
    RunKeepsInv(cfg, steps[..k]);
  }

  /** Between states `a` and `b` the ledger never lets go of `h`. */
  ghost predicate Lifetime(cfg: Config, steps: seq<Step>, a: nat, b: nat, h: ContentHash) {
    a <= b <= |steps| && forall k :: a <= k <= b ==> h in At(cfg, steps, k).tracked
  }

  ghost predicate SettleWakesAt(cfg: Config, steps: seq<Step>, k: nat, h: ContentHash)
    requires k < |steps|
  {
    steps[k].Settle? && SettleWakes(At(cfg, steps, k), steps[k].nowMs, steps[k].downloads, h)
  }

  ghost predicate ArrivalWakesAt(cfg: Config, steps: seq<Step>, k: nat, h: ContentHash)
    requires k < |steps|
  {
    steps[k].Arrive? && steps[k].entry.hash == h && ArrivalWakes(At(cfg, steps, k), h)
  }

  ghost predicate WakesAt(cfg: Config, steps: seq<Step>, k: nat, h: ContentHash)
    requires k < |steps|
  {
    SettleWakesAt(cfg, steps, k, h) || ArrivalWakesAt(cfg, steps, k, h)
  }

  /** Only a settle pass changes an entry that stays tracked. */
  lemma OnlySettleChangesEntries(cfg: Config, m: StashState, step: Step, h: ContentHash)
    requires h in m.tracked && h in Next(cfg, m, step).tracked
    ensures !step.Settle? ==> Next(cfg, m, step).tracked[h] == m.tracked[h]
    ensures step.Settle? ==>
      Next(cfg, m, step).tracked[h] == (if m.tracked[h].contentPresent then m.tracked[h]
                                        else SettledEntry(m.tracked[h], Ready(m, step.nowMs, step.downloads, h), step.nowMs))
  {
  }

  lemma WokenStep(cfg: Config, steps: seq<Step>, k: nat, h: ContentHash)
    requires k < |steps| && h in At(cfg, steps, k).tracked && h in At(cfg, steps, k + 1).tracked
    requires At(cfg, steps, k).tracked[h].woken
    ensures At(cfg, steps, k + 1).tracked[h].woken
  {
    AtNext(cfg, steps, k);
    OnlySettleChangesEntries(cfg, At(cfg, steps, k), steps[k], h);
  }

  // ---------------------------------------------------------------------------------------------
  // Wakes
  // ---------------------------------------------------------------------------------------------

  /** Once woken, woken for the rest of the lifetime. */
  lemma {:induction false} WokenStays(cfg: Config, steps: seq<Step>, a: nat, b: nat, h: ContentHash)
    requires Lifetime(cfg, steps, a, b, h) && At(cfg, steps, a).tracked[h].woken
    ensures At(cfg, steps, b).tracked[h].woken
    decreases b
  {
    if a < b {
      var c := b - 1;
      WokenStays(cfg, steps, a, c, h);
      WokenStep(cfg, steps, c, h);
    }
  }

  /** A settle pass wakes a lifetime at most once, and nothing wakes it after that. */
  lemma SettleWakesOnce(cfg: Config, steps: seq<Step>, a: nat, b: nat, h: ContentHash)
    requires a < b < |steps| && Lifetime(cfg, steps, a, b, h)
    requires SettleWakesAt(cfg, steps, a, h)
    ensures !WakesAt(cfg, steps, b, h)
  {
    AtNext(cfg, steps, a);
    OnlySettleChangesEntries(cfg, At(cfg, steps, a), steps[a], h);
    WokenStays(cfg, steps, a + 1, b, h);
  }

  /** An entry whose bytes were already here when it first arrived is never woken for, in all its
      lifetime: the handler reads the flag back from the entry it has just inserted. */
  lemma PresentOnArrivalIsNeverWoken(cfg: Config, steps: seq<Step>, a: nat, b: nat, h: ContentHash)
    requires a <= b < |steps| && Lifetime(cfg, steps, a + 1, b + 1, h)
    requires steps[a].Arrive? && steps[a].entry.hash == h
    requires h !in At(cfg, steps, a).tracked && h in At(cfg, steps, a).blobs
    ensures !WakesAt(cfg, steps, b, h)
  {
    AtNext(cfg, steps, a);
    if a < b {
      WokenStays(cfg, steps, a + 1, b, h);
    }
  }

  /** Every wake by a re-delivery is repeated by the next settle pass of the lifetime, because the
      handler wakes without recording it. */
  lemma {:induction false} ArrivalWakeIsRepeated(cfg: Config, steps: seq<Step>, a: nat, b: nat, h: ContentHash)
    requires Legal(cfg, EMPTY, steps)
    requires a < b < |steps| && Lifetime(cfg, steps, a, b, h)
    requires ArrivalWakesAt(cfg, steps, a, h)
    requires steps[b].Settle? && forall k :: a < k < b ==> !steps[k].Settle?
    ensures SettleWakesAt(cfg, steps, b, h)
  {
    LegalPrefix(cfg, steps, a);
    StaysStoredAndUnwoken(cfg, steps, a, b, h);
    LegalPrefix(cfg, steps, b);
  }

  lemma {:induction false} LegalFromSteps(cfg: Config, steps: seq<Step>, k: nat)
    requires k <= |steps|
    requires forall i :: 0 <= i < k ==> Enabled(cfg, At(cfg, steps, i), steps[i])
    ensures Legal(cfg, EMPTY, steps[..k])
  {
    if k > 0 {
      LegalFromSteps(cfg, steps, k - 1);
      assert steps[..k][..k - 1] == steps[..k - 1];
    }
  }

  lemma {:induction false} StaysStoredAndUnwoken(cfg: Config, steps: seq<Step>, a: nat, b: nat, h: ContentHash)
    requires Legal(cfg, EMPTY, steps) && Lifetime(cfg, steps, a, b, h)
    requires h in At(cfg, steps, a).blobs && !At(cfg, steps, a).tracked[h].woken
    requires forall k :: a <= k < b ==> !steps[k].Settle?
    ensures h in At(cfg, steps, b).blobs && !At(cfg, steps, b).tracked[h].woken
    decreases b
  {
    if a < b {
      StaysStoredAndUnwoken(cfg, steps, a, b - 1, h);
      LegalPrefix(cfg, steps, b - 1);
      AtNext(cfg, steps, b - 1);
      OnlySettleChangesEntries(cfg, At(cfg, steps, b - 1), steps[b - 1], h);
      TrackedBlobsStay(cfg, At(cfg, steps, b - 1), steps[b - 1], h);
    }
  }

  /** No step takes the bytes of a tracked hash out of the store. */
  lemma TrackedBlobsStay(cfg: Config, m: StashState, step: Step, h: ContentHash)
    requires Inv(cfg, m) && Enabled(cfg, m, step) && h in m.tracked && h in m.blobs
    ensures h in Next(cfg, m, step).blobs
  {
  }

  /** One settle pass: it never skips an unwoken entry; it wakes degraded exactly when the bytes are
      still not in the store, and then the entry is at least 30 s old; and every entry it leaves
      unwoken is younger than that. */
  lemma SettleTiming(cfg: Config, m: StashState, nowMs: nat, downloads: Downloads)
    requires Inv(cfg, m)
    ensures var after := Settled(m, nowMs, downloads);
            && (forall h :: h in m.tracked && !m.tracked[h].woken ==> h in Outstanding(m))
            && (forall h :: SettleWakes(m, nowMs, downloads, h) ==>
                  (Ready(m, nowMs, downloads, h) <==> h in after.blobs))
            && (forall h :: SettleWakes(m, nowMs, downloads, h) && h !in after.blobs ==>
                  nowMs - m.tracked[h].firstSeenMs >= 30_000)
            && (forall h :: h in after.tracked && !after.tracked[h].woken ==>
                  nowMs - after.tracked[h].firstSeenMs < 30_000)
  {
    forall h | SettleWakes(m, nowMs, downloads, h)
      ensures Ready(m, nowMs, downloads, h) <==> h in Settled(m, nowMs, downloads).blobs
    {
      ReadyIsStored(m, nowMs, downloads, h);
    }
    var after := Settled(m, nowMs, downloads);
    forall h | h in after.tracked && !after.tracked[h].woken ensures nowMs - after.tracked[h].firstSeenMs < 30_000 {
      UnwokenIsYoung(cfg, m, nowMs, downloads, h);
    }
    hide Settled;
  }

  lemma ReadyIsStored(m: StashState, nowMs: nat, downloads: Downloads, h: ContentHash)
    requires h in Outstanding(m)
    ensures Ready(m, nowMs, downloads, h) <==> h in Settled(m, nowMs, downloads).blobs
  {
  }

  lemma UnwokenIsYoung(cfg: Config, m: StashState, nowMs: nat, downloads: Downloads, h: ContentHash)
    requires Inv(cfg, m) && h in m.tracked && !Settled(m, nowMs, downloads).tracked[h].woken
    ensures nowMs - Settled(m, nowMs, downloads).tracked[h].firstSeenMs < 30_000
  {
  }

  // ---------------------------------------------------------------------------------------------
  // Retries
  // ---------------------------------------------------------------------------------------------

  /** The pass tries to fetch `h` and fails. */
  ghost predicate Fails(m: StashState, step: Step, h: ContentHash) {
    && step.Settle? && h in m.tracked && !m.tracked[h].contentPresent
    && !Ready(m, step.nowMs, step.downloads, h) && step.nowMs >= m.tracked[h].nextAttemptMs
  }

  /** The clocks of the failed fetches of the current lifetime, oldest first. */
  ghost function FailureClocks(cfg: Config, steps: seq<Step>, h: ContentHash): seq<nat> {
    if steps == [] then []
    else
      var front, last := steps[..|steps| - 1], steps[|steps| - 1];
      if h !in Run(cfg, EMPTY, steps).tracked then []
      else if Fails(Run(cfg, EMPTY, front), last, h) then FailureClocks(cfg, front, h) + [last.nowMs]
      else FailureClocks(cfg, front, h)
  }

  /** The ledger's retry fields say when the last failure was, and failures keep their distance. */
  ghost predicate Spaced(e: TrackedEntry, clocks: seq<nat>) {
    && e.attempts == (if |clocks| < U32_MAX then |clocks| else U32_MAX)
    && e.nextAttemptMs == (if clocks == [] then 0 else clocks[|clocks| - 1] + BackoffMs(|clocks|))
    && Apart(clocks)
  }

  ghost predicate Apart(clocks: seq<nat>) {
    forall i :: 0 < i < |clocks| ==> clocks[i] >= clocks[i - 1] + BackoffMs(i)
  }

  lemma FailureKeepsSpaced(e: TrackedEntry, clocks: seq<nat>, nowMs: nat)
    requires Spaced(e, clocks) && nowMs >= e.nextAttemptMs
    ensures Spaced(SettledEntry(e, false, nowMs), clocks + [nowMs])
  {
  }

  /** From seven attempts on, the delay is a minute. */
  lemma BackoffCapped(attempts: nat)
    ensures attempts >= 7 ==> BackoffMs(attempts) == 60_000
  {
  }

  lemma {:induction false} RunKeepsSpaced(cfg: Config, steps: seq<Step>, h: ContentHash)
    ensures var m := Run(cfg, EMPTY, steps);
            if h in m.tracked then Spaced(m.tracked[h], FailureClocks(cfg, steps, h))
            else FailureClocks(cfg, steps, h) == []
  {
    if steps != [] {
      var n := |steps| - 1;
      RunKeepsSpaced(cfg, steps[..n], h);
      var m, after := Run(cfg, EMPTY, steps[..n]), Run(cfg, EMPTY, steps);
      if h in after.tracked {
        if h in m.tracked {
          OnlySettleChangesEntries(cfg, m, steps[n], h);
          if Fails(m, steps[n], h) {
            FailureKeepsSpaced(m.tracked[h], FailureClocks(cfg, steps[..n], h), steps[n].nowMs);
          }
        } else {
          NewcomersAreFresh(cfg, m, steps[n], h);
        }
      }
    }
  }

  /** A hash enters the ledger only by arriving, as its key and its peer say, seen now, due at once,
      with no attempts behind it, and counted as woken exactly when the store has the bytes. */
  lemma NewcomersAreFresh(cfg: Config, m: StashState, step: Step, h: ContentHash)
    requires h !in m.tracked && h in Next(cfg, m, step).tracked
    ensures step.Arrive? && step.entry.hash == h
    ensures var e := Next(cfg, m, step).tracked[h];
            && e.ns == step.ns && e.deliveredBy == step.from && e.firstSeenMs == step.nowMs
            && e.nextAttemptMs == 0 && e.attempts == 0
            && (e.contentPresent <==> h in m.blobs) && (e.woken <==> h in m.blobs)
            && (match DecodeFixKey(step.entry.key)
                case Some(fix) => e.author == fix.author && e.fixSeq == fix.fixSeq
                case None => e.author == [] && e.fixSeq == 0)
  {
  }

  lemma {:induction false} ApartAddsUp(clocks: seq<nat>, n: nat)
    requires Apart(clocks) && 1 <= n <= |clocks|
    ensures n <= 7 ==> clocks[n - 1] >= clocks[0] + 1_000 * (Pow2(n - 1) - 1)
    ensures n >= 7 ==> clocks[n - 1] >= clocks[0] + 63_000 + 60_000 * (n - 7)
  {
    assert Pow2(6) == 64;
    if n > 1 {
      ApartAddsUp(clocks, n - 1);
      assert clocks[n - 1] >= clocks[n - 2] + BackoffMs(n - 1);
      if n - 1 < 7 {
        Pow2Grows(n - 1, 6);
        assert Pow2(n - 1) == 2 * Pow2(n - 2);
      } else {
        BackoffCapped(n - 1);
      }
    }
  }

  /** In every run, the n-th failed fetch of a lifetime comes at least 1, 3, 7, 15, 31 and 63 seconds
      after the first for n = 2 to 7, and a further minute later for each one after that. */
  lemma RetriesAreSpaced(cfg: Config, steps: seq<Step>, h: ContentHash, n: nat)
    requires 1 <= n <= |FailureClocks(cfg, steps, h)|
    ensures var clocks := FailureClocks(cfg, steps, h);
            && (n <= 7 ==> clocks[n - 1] - clocks[0] >= 1_000 * (Pow2(n - 1) - 1))
            && (n >= 7 ==> clocks[n - 1] - clocks[0] >= 63_000 + 60_000 * (n - 7))
  {
    RunKeepsSpaced(cfg, steps, h);
    ApartAddsUp(FailureClocks(cfg, steps, h), n);
  }

  lemma SpacedIsDue(e: TrackedEntry, clocks: seq<nat>, nowMs: nat)
    requires Spaced(e, clocks)
    ensures clocks != [] && nowMs >= clocks[|clocks| - 1] + 60_000 ==> nowMs >= e.nextAttemptMs
    ensures clocks == [] ==> e.nextAttemptMs == 0
  {
  }

  /** The other way round: a missing entry is never left alone for long. Any pass a minute or more
      after the last failure tries again, and an entry that has not failed yet is tried at once. */
  lemma RetryIsDueWithinAMinute(cfg: Config, steps: seq<Step>, h: ContentHash, nowMs: nat)
    requires h in Run(cfg, EMPTY, steps).tracked
    ensures var clocks, e := FailureClocks(cfg, steps, h), Run(cfg, EMPTY, steps).tracked[h];
            && (clocks != [] && nowMs >= clocks[|clocks| - 1] + 60_000 ==> nowMs >= e.nextAttemptMs)
            && (clocks == [] ==> e.nextAttemptMs == 0)
  {
    var clocks, e := FailureClocks(cfg, steps, h), Run(cfg, EMPTY, steps).tracked[h];
    assert Spaced(e, clocks) by { RunKeepsSpaced(cfg, steps, h); }
    SpacedIsDue(e, clocks, nowMs);
  }
}
