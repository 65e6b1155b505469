/** Which entries of one namespace may be released. */
module Retention {
  import opened Bytes
  import opened FixKeys

  const MS_PER_HOUR := 3_600_000

  /** All times are milliseconds since the Unix epoch; the window is a `u64`. */
  datatype RetentionPolicy = RetentionPolicy(retentionMs: nat) {

    /** `from_hours`, with its saturating multiplication. */
    static function FromHours(hours: nat): RetentionPolicy {
      RetentionPolicy(if hours * MS_PER_HOUR < U64_LIMIT then hours * MS_PER_HOUR else U64_LIMIT - 1)
    }

    /** `cutoff`, with its saturating subtraction. */
    function Cutoff(nowMs: nat): nat {
      if nowMs < retentionMs then 0 else nowMs - retentionMs
    }

    predicate IsExpired(writtenMs: nat, nowMs: nat) {
      writtenMs < Cutoff(nowMs)
    }
  }

  datatype RetentionEntry = RetentionEntry(key: seq<byte>, writtenMs: nat)

  datatype ReleaseReason = Superseded | Expired | SupersededAndExpired

  /** On every 64-bit clock the saturating arithmetic decides as unbounded arithmetic would: an entry
      expires exactly when more than the whole window lies behind it. */
  lemma SaturationNeverDecides(hours: nat, writtenMs: nat, nowMs: nat)
    requires nowMs < 18_446_744_073_709_551_616
    ensures RetentionPolicy.FromHours(hours).IsExpired(writtenMs, nowMs)
            <==> writtenMs + hours * 3_600_000 < nowMs
  {
  }

  /** The fixes the keys stand for; `None` for a key that is not a fix. */
  function Parsed(entries: seq<RetentionEntry>): (fixes: seq<Option<FixKey>>)
    ensures |fixes| == |entries|
  {
    seq(|entries|, i requires 0 <= i < |entries| => DecodeFixKey(entries[i].key))
  }

  /** The fix `newer` makes the fix `older` dead weight. */
  predicate Supersedes(newer: Option<FixKey>, older: Option<FixKey>) {
    && newer.Some? && older.Some?
    && newer.value.author == older.value.author && newer.value.fixSeq > older.value.fixSeq
  }

  predicate HasNewer(fixes: seq<Option<FixKey>>, i: nat)
    requires i < |fixes|
  {
    exists j :: 0 <= j < |fixes| && Supersedes(fixes[j], fixes[i])
  }

  /** The release rule, from the two conditions alone. */
  function Decision(entries: seq<RetentionEntry>, policy: RetentionPolicy, nowMs: nat, i: nat): Option<ReleaseReason>
    requires i < |entries|
  {
    Verdict(HasNewer(Parsed(entries), i), policy.IsExpired(entries[i].writtenMs, nowMs))
  }

  function Verdict(superseded: bool, expired: bool): Option<ReleaseReason> {
    match (superseded, expired)
    case (true, true) => Some(SupersededAndExpired)
    case (true, false) => Some(Superseded)
    case (false, true) => Some(Expired)
    case (false, false) => None
  }

  predicate Released(entries: seq<RetentionEntry>, policy: RetentionPolicy, nowMs: nat, i: nat)
    requires i < |entries|
  {
    HasNewer(Parsed(entries), i) || policy.IsExpired(entries[i].writtenMs, nowMs)
  }

  // ---------------------------------------------------------------------------------------------
  // The one-pass maximum
  // ---------------------------------------------------------------------------------------------

  /** `latest` holds, for exactly the authors of the fixes, their greatest sequence. */
  ghost predicate IsLatest(fixes: seq<Option<FixKey>>, latest: map<seq<byte>, nat>) {
    && (forall i :: 0 <= i < |fixes| && fixes[i].Some? ==>
          fixes[i].value.author in latest && fixes[i].value.fixSeq <= latest[fixes[i].value.author])
    && (forall author :: author in latest ==> Some(FixKey(author, latest[author])) in fixes)
  }

  method LatestByAuthor(fixes: seq<Option<FixKey>>) returns (latest: map<seq<byte>, nat>)
    ensures IsLatest(fixes, latest)
  {
    latest := map[];
    for i := 0 to |fixes|
      invariant IsLatest(fixes[..i], latest)
    {
      assert fixes[..i + 1] == fixes[..i] + [fixes[i]];
      if fixes[i].Some? {
        var author, fixSeq := fixes[i].value.author, fixes[i].value.fixSeq;
        latest := latest[author := if author in latest && fixSeq < latest[author] then latest[author] else fixSeq];
      }
    }
    assert fixes[..|fixes|] == fixes;
  }

  /** Comparing with the greatest sequence is the same as looking for a newer fix. */
  lemma BelowLatestIsSuperseded(fixes: seq<Option<FixKey>>, latest: map<seq<byte>, nat>, i: nat)
    requires i < |fixes| && IsLatest(fixes, latest)
    ensures HasNewer(fixes, i) <==>
            var fix := fixes[i];
            fix.Some? && fix.value.author in latest && fix.value.fixSeq < latest[fix.value.author]
  {
  }

  /** The decisions, from the parsed keys and the one-pass maximum. */
  method Decide(parsed: seq<Option<FixKey>>, entries: seq<RetentionEntry>, policy: RetentionPolicy, nowMs: nat)
    returns (decisions: seq<Option<ReleaseReason>>)
    requires |parsed| == |entries|
    ensures |decisions| == |entries|
    ensures forall i :: 0 <= i < |entries| ==>
      decisions[i] == Verdict(HasNewer(parsed, i), policy.IsExpired(entries[i].writtenMs, nowMs))
  {
    var latest := LatestByAuthor(parsed);
    decisions := [];
    for i := 0 to |entries|
      invariant |decisions| == i
      invariant forall k :: 0 <= k < i ==>
        decisions[k] == Verdict(HasNewer(parsed, k), policy.IsExpired(entries[k].writtenMs, nowMs))
    {
      var fix := parsed[i];
      var superseded := fix.Some? && fix.value.author in latest && fix.value.fixSeq < latest[fix.value.author];
      var expired := policy.IsExpired(entries[i].writtenMs, nowMs);
      BelowLatestIsSuperseded(parsed, latest, i);
      decisions := decisions + [Verdict(superseded, expired)];
    }
  }

  /** What a decision means: a listed key decodes to the same author and a greater sequence; the whole
      window lies between the stamp and the clock. */
  lemma DecisionText(entries: seq<RetentionEntry>, policy: RetentionPolicy, nowMs: nat, i: nat)
    requires i < |entries|
    ensures var mine := DecodeFixKey(entries[i].key);
            var newer := exists j ::
              && 0 <= j < |entries| && mine.Some? && DecodeFixKey(entries[j].key).Some?
              && DecodeFixKey(entries[j].key).value.author == mine.value.author
              && DecodeFixKey(entries[j].key).value.fixSeq > mine.value.fixSeq;
            var aged := entries[i].writtenMs + policy.retentionMs < nowMs;
            Decision(entries, policy, nowMs, i) ==
              if newer && aged then Some(SupersededAndExpired)
              else if newer then Some(Superseded)
              else if aged then Some(Expired)
              else None
  {
    var fixes := Parsed(entries);
    forall j | 0 <= j < |entries| ensures fixes[j] == DecodeFixKey(entries[j].key) {}
    hide DecodeFixKey, Parsed;
    if HasNewer(fixes, i) {
      var j :| 0 <= j < |fixes| && Supersedes(fixes[j], fixes[i]);
      assert fixes[j] == DecodeFixKey(entries[j].key);
    }
    forall j | 0 <= j < |entries| && DecodeFixKey(entries[i].key).Some? && DecodeFixKey(entries[j].key).Some?
      && DecodeFixKey(entries[j].key).value.author == DecodeFixKey(entries[i].key).value.author
      && DecodeFixKey(entries[j].key).value.fixSeq > DecodeFixKey(entries[i].key).value.fixSeq
      ensures HasNewer(fixes, i)
    {
      assert Supersedes(fixes[j], fixes[i]);
    }
  }

  /** `release_decisions` */
  method ReleaseDecisions(entries: seq<RetentionEntry>, policy: RetentionPolicy, nowMs: nat)
    returns (decisions: seq<Option<ReleaseReason>>)
    ensures |decisions| == |entries|
    ensures forall i :: 0 <= i < |entries| ==> decisions[i] == Decision(entries, policy, nowMs, i)
    ensures forall i :: 0 <= i < |entries| ==>
      var mine := DecodeFixKey(entries[i].key);
      var newer := exists j ::
        && 0 <= j < |entries| && mine.Some? && DecodeFixKey(entries[j].key).Some?
        && DecodeFixKey(entries[j].key).value.author == mine.value.author
        && DecodeFixKey(entries[j].key).value.fixSeq > mine.value.fixSeq;
      var aged := entries[i].writtenMs + policy.retentionMs < nowMs;
      decisions[i] ==
        if newer && aged then Some(SupersededAndExpired)
        else if newer then Some(Superseded)
        else if aged then Some(Expired)
        else None
  {
    var parsed := Parsed(entries);
    decisions := Decide(parsed, entries, policy, nowMs);
    hide DecodeFixKey;
    forall i | 0 <= i < |entries| ensures decisions[i] == Decision(entries, policy, nowMs, i) {}
    hide Decision;
    forall i | 0 <= i < |entries| {
      DecisionText(entries, policy, nowMs, i);
    }
  }

  // ---------------------------------------------------------------------------------------------
  // What the rule guarantees
  // ---------------------------------------------------------------------------------------------

  /** For every fix there is one from the same author, at least as new, that nothing supersedes. */
  lemma {:induction false} SomeLatestFixSurvives(fixes: seq<Option<FixKey>>, i: nat) returns (best: nat)
    requires i < |fixes| && fixes[i].Some?
    requires forall k :: 0 <= k < |fixes| && fixes[k].Some? ==> fixes[k].value.fixSeq < U64_LIMIT
    ensures best < |fixes| && !HasNewer(fixes, best)
    ensures best == i || Supersedes(fixes[best], fixes[i])
    decreases U64_LIMIT - fixes[i].value.fixSeq
  {
    best := i;
    if HasNewer(fixes, i) {
      var j :| 0 <= j < |fixes| && Supersedes(fixes[j], fixes[i]);
      best := SomeLatestFixSurvives(fixes, j);
    }
  }

  /** In every listing with a fix, some fix of that author is not superseded. */
  lemma EveryAuthorKeepsALatestFix(entries: seq<RetentionEntry>, i: nat)
    requires i < |entries| && DecodeFixKey(entries[i].key).Some?
    ensures exists best :: 0 <= best < |entries| && !HasNewer(Parsed(entries), best)
              && Parsed(entries)[best].Some?
              && Parsed(entries)[best].value.author == DecodeFixKey(entries[i].key).value.author
  {
    var best := SomeLatestFixSurvives(Parsed(entries), i);
  }

  /** Control entries only ever expire. */
  lemma ControlEntriesOnlyExpire(entries: seq<RetentionEntry>, policy: RetentionPolicy, nowMs: nat, i: nat)
    requires i < |entries| && |entries[i].key| >= 4
    requires var key := entries[i].key;
             key[0] == 'c' as int && key[1] == 't' as int && key[2] == 'l' as int && key[3] == '/' as int
    ensures Decision(entries, policy, nowMs, i)
            == if policy.IsExpired(entries[i].writtenMs, nowMs) then Some(Expired) else None
  {
    ControlKeysAreNotFixes(entries[i].key);
    assert Parsed(entries)[i].None?;
  }

  /** A release is final: new entries and a later clock never take it back. */
  lemma ReleaseIsMonotone(
    entries: seq<RetentionEntry>, i: nat, more: seq<RetentionEntry>, j: nat,
    policy: RetentionPolicy, nowMs: nat, laterMs: nat)
    requires i < |entries| && j < |more| && more[j] == entries[i]
    requires forall k :: 0 <= k < |entries| ==> entries[k] in more
    requires nowMs <= laterMs
    requires Released(entries, policy, nowMs, i)
    ensures Released(more, policy, laterMs, j)
  {
    var fixes, moreFixes := Parsed(entries), Parsed(more);
    if HasNewer(fixes, i) {
      var k :| 0 <= k < |fixes| && Supersedes(fixes[k], fixes[i]);
      assert entries[k] in more;
      var l :| 0 <= l < |more| && more[l] == entries[k];
      assert moreFixes[l] == fixes[k] && moreFixes[j] == fixes[i];
      assert Supersedes(moreFixes[l], moreFixes[j]);
    }
  }

  /** Two unsuperseded fixes from one author carry the same sequence. */
  lemma UnsupersededFixesAgree(fixes: seq<Option<FixKey>>, i: nat, j: nat)
    requires i < |fixes| && j < |fixes|
    requires !HasNewer(fixes, i) && !HasNewer(fixes, j)
    requires fixes[i].Some? && fixes[j].Some? && fixes[i].value.author == fixes[j].value.author
    ensures fixes[i] == fixes[j]
  {
  }
}
