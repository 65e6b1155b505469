/** The state the stash keeps about content, and what each of its handlers makes of it.

    Each handler is one step. The blob store is outside: it answers whether it holds a hash, a fetch
    succeeds or not, blobs may appear in it, and collection may take what the index does not protect. */
module Stash {
  import opened Bytes
  import opened Ids
  import opened FixKeys
  import opened Retention
  import opened Content

  const WAKE_FALLBACK_MS := 30_000
  const BASE_MS := 500
  const CEILING_MS := 60_000
  const U32_MAX := 0xFFFF_FFFF

  /** A dialable peer. */
  type EndpointId = seq<byte>

  datatype TrackedEntry = TrackedEntry(
    ns: NamespaceId,
    author: seq<byte>,
    deliveredBy: EndpointId,
    fixSeq: nat,
    firstSeenMs: nat,
    contentPresent: bool,
    woken: bool,
    nextAttemptMs: nat,
    attempts: nat)

  /** A docs entry record, stamped in microseconds. */
  datatype DocEntry = DocEntry(hash: ContentHash, key: seq<byte>, timestampUs: nat)

  datatype StashState = StashState(
    index: IndexState,
    tracked: map<ContentHash, TrackedEntry>,
    blobs: map<ContentHash, seq<byte>>,
    known: set<NamespaceId>,
    handles: set<NamespaceId>)

  /** The content hash function, any function on bytes, and the retention window. */
  datatype Config = Config(digest: seq<byte> -> ContentHash, retention: RetentionPolicy)

  const EMPTY := StashState(IndexState(map[], map[]), map[], map[], {}, {})

  function Pow2(k: nat): nat {
    if k == 0 then 1 else 2 * Pow2(k - 1)
  }

  /** `backoff_ms`: the shift is capped, then the product is. */
  function BackoffMs(attempts: nat): nat {
    var delay := BASE_MS * Pow2(if attempts < 7 then attempts else 7);
    if delay < CEILING_MS then delay else CEILING_MS
  }

  /** `entry_written_ms` */
  function EntryWrittenMs(entry: DocEntry): nat {
    entry.timestampUs / 1_000
  }

  /** `decode_author_seq` */
  function DecodeAuthorSeq(key: seq<byte>): (seq<byte>, nat) {
    match DecodeFixKey(key)
    case Some(fix) => (fix.author, fix.fixSeq)
    case None => ([], 0)
  }

  function NewEntry(ns: NamespaceId, entry: DocEntry, from: EndpointId, nowMs: nat, present: bool): TrackedEntry {
    var (author, fixSeq) := DecodeAuthorSeq(entry.key);
    TrackedEntry(ns, author, from, fixSeq, nowMs, present, present, 0, 0)
  }

  // ---------------------------------------------------------------------------------------------
  // A remote entry arrives
  // ---------------------------------------------------------------------------------------------

  function Arrived(m: StashState, ns: NamespaceId, entry: DocEntry, from: EndpointId, nowMs: nat): StashState {
    var present := entry.hash in m.blobs;
    var wanted := WithReference(m.index, ns, entry.hash);
    m.(index := if present then WithPresent(wanted, entry.hash) else wanted,
       tracked := if entry.hash in m.tracked then m.tracked
                  else m.tracked[entry.hash := NewEntry(ns, entry, from, nowMs, present)])
  }

  /** The arrival handler wakes only for an entry it already tracked, had not woken, and whose bytes
      are in the store. */
  predicate ArrivalWakes(m: StashState, hash: ContentHash) {
    hash in m.blobs && hash in m.tracked && !m.tracked[hash].woken
  }

  // ---------------------------------------------------------------------------------------------
  // A settle pass
  // ---------------------------------------------------------------------------------------------

  /** What the downloader brings back for each hash it can fetch during this pass. */
  type Downloads = map<ContentHash, seq<byte>>

  function Outstanding(m: StashState): set<ContentHash> {
    set h | h in m.tracked && !m.tracked[h].contentPresent
  }

  /** The pass fetches `h`: it lacks the bytes, its retry time has come, and the download succeeds. */
  predicate Fetches(m: StashState, nowMs: nat, downloads: Downloads, h: ContentHash)
    requires h in m.tracked
  {
    h !in m.blobs && nowMs >= m.tracked[h].nextAttemptMs && h in downloads
  }

  predicate Ready(m: StashState, nowMs: nat, downloads: Downloads, h: ContentHash)
    requires h in m.tracked
  {
    h in m.blobs || Fetches(m, nowMs, downloads, h)
  }

  predicate Overdue(firstSeenMs: nat, nowMs: nat) {
    nowMs >= firstSeenMs && nowMs - firstSeenMs >= WAKE_FALLBACK_MS
  }

  predicate SettleWakes(m: StashState, nowMs: nat, downloads: Downloads, h: ContentHash) {
    && h in m.tracked && !m.tracked[h].contentPresent && !m.tracked[h].woken
    && (Ready(m, nowMs, downloads, h) || Overdue(m.tracked[h].firstSeenMs, nowMs))
  }

  /** What a round makes of the live entry. Whether the retry was due is read from the copy taken
      when the pass began; an entry that is woken for stays so. */
  function UpdatedEntry(live: TrackedEntry, seen: TrackedEntry, ready: bool, nowMs: nat): TrackedEntry {
    var attempts := if live.attempts < U32_MAX then live.attempts + 1 else live.attempts;
    var fetched :=
      if ready then live.(contentPresent := true)
      else if nowMs >= seen.nextAttemptMs then live.(attempts := attempts, nextAttemptMs := nowMs + BackoffMs(attempts))
      else live;
    fetched.(woken := live.woken || ready || Overdue(live.firstSeenMs, nowMs))
  }

  /** The same when nothing came between the copy and the update. */
  function SettledEntry(e: TrackedEntry, ready: bool, nowMs: nat): TrackedEntry {
    UpdatedEntry(e, e, ready, nowMs)
  }

  function SettledIndex(m: StashState, nowMs: nat, downloads: Downloads, batch: set<ContentHash>): map<ContentHash, Presence>
    requires batch <= m.tracked.Keys
  {
    map h | h in m.index.state :: if h in batch && Ready(m, nowMs, downloads, h) then Present else m.index.state[h]
  }

  function SettledLedger(m: StashState, nowMs: nat, downloads: Downloads, batch: set<ContentHash>): map<ContentHash, TrackedEntry>
    requires batch <= m.tracked.Keys
  {
    map h | h in m.tracked ::
      if h in batch then SettledEntry(m.tracked[h], Ready(m, nowMs, downloads, h), nowMs) else m.tracked[h]
  }

  function SettledBlobs(m: StashState, nowMs: nat, downloads: Downloads, batch: set<ContentHash>): map<ContentHash, seq<byte>>
    requires batch <= m.tracked.Keys
  {
    m.blobs + map h | h in batch && Fetches(m, nowMs, downloads, h) :: downloads[h]
  }

  /** The pass restricted to some of the outstanding hashes. */
  function SettledOn(m: StashState, nowMs: nat, downloads: Downloads, batch: set<ContentHash>): StashState
    requires batch <= m.tracked.Keys
  {
    m.(index := m.index.(state := SettledIndex(m, nowMs, downloads, batch)),
       tracked := SettledLedger(m, nowMs, downloads, batch),
       blobs := SettledBlobs(m, nowMs, downloads, batch))
  }

  function Settled(m: StashState, nowMs: nat, downloads: Downloads): StashState {
    SettledOn(m, nowMs, downloads, Outstanding(m))
  }

  // ---------------------------------------------------------------------------------------------
  // An upload and a read
  // ---------------------------------------------------------------------------------------------

  datatype PutOutcome = Stored | UnknownNamespace | UntrackedHash | HashMismatch | StoreFailed

  predicate Accepts(cfg: Config, m: StashState, ns: NamespaceId, expected: ContentHash, bytes: seq<byte>) {
    ns in m.known && TrackedFor(m.index, ns, expected) && cfg.digest(bytes) == expected
  }

  /** `add_bytes`: a content-addressed store keeps what it already has under the name. */
  function WithBlob(m: StashState, h: ContentHash, bytes: seq<byte>): StashState {
    if h in m.blobs then m else m.(blobs := m.blobs[h := bytes])
  }

  function Uploaded(cfg: Config, m: StashState, ns: NamespaceId, expected: ContentHash, bytes: seq<byte>): StashState {
    if Accepts(cfg, m, ns, expected, bytes) then
      WithBlob(m, expected, bytes).(index := WithPresent(m.index, expected))
    else m
  }

  /** What a reader of the namespace is served. */
  function Served(m: StashState, ns: NamespaceId, h: ContentHash): Option<seq<byte>> {
    if TrackedFor(m.index, ns, h) && IsPresent(m.index, h) && h in m.blobs then Some(m.blobs[h]) else None
  }

  // ---------------------------------------------------------------------------------------------
  // A retention sweep
  // ---------------------------------------------------------------------------------------------

  /** The entries listed for each namespace; a namespace that is not here failed to list. */
  type Listing = map<NamespaceId, seq<DocEntry>>

  function RetentionEntries(entries: seq<DocEntry>): (r: seq<RetentionEntry>)
    ensures |r| == |entries|
  {
    seq(|entries|, i requires 0 <= i < |entries| => RetentionEntry(entries[i].key, EntryWrittenMs(entries[i])))
  }

  /** Entry `i` of the listing still needs its content. */
  predicate Kept(entries: seq<DocEntry>, policy: RetentionPolicy, nowMs: nat, i: nat)
    requires i < |entries|
  {
    !Released(RetentionEntries(entries), policy, nowMs, i)
  }

  function NamedHashes(entries: seq<DocEntry>): set<ContentHash> {
    set i | 0 <= i < |entries| :: entries[i].hash
  }

  function KeptHashes(entries: seq<DocEntry>, policy: RetentionPolicy, nowMs: nat): set<ContentHash> {
    set i | 0 <= i < |entries| && Kept(entries, policy, nowMs, i) :: entries[i].hash
  }

  /** Named by some entry, and by no entry that still needs it. */
  function Releasable(entries: seq<DocEntry>, policy: RetentionPolicy, nowMs: nat): set<ContentHash> {
    NamedHashes(entries) - KeptHashes(entries, policy, nowMs)
  }

  /** An entry still needs its content unless the whole window lies behind it, or a listed key decodes
      to the same author with a greater sequence. So a key that is no fix needs it while it is fresh. */
  lemma KeptText(entries: seq<DocEntry>, policy: RetentionPolicy, nowMs: nat, i: nat)
    requires i < |entries|
    ensures var mine := DecodeFixKey(entries[i].key);
            Kept(entries, policy, nowMs, i) <==>
            && entries[i].timestampUs + policy.retentionMs * 1_000 >= nowMs * 1_000
            && !exists j ::
                 && 0 <= j < |entries|
                 && mine.Some? && DecodeFixKey(entries[j].key).Some?
                 && DecodeFixKey(entries[j].key).value.author == mine.value.author
                 && DecodeFixKey(entries[j].key).value.fixSeq > mine.value.fixSeq
  {
    var listed := RetentionEntries(entries);
    DecisionText(listed, policy, nowMs, i);
    forall j | 0 <= j < |entries| ensures listed[j].key == entries[j].key {}
    assert Released(listed, policy, nowMs, i) <==> Decision(listed, policy, nowMs, i).Some?;
    ExpiryIsExactInMicroseconds(policy, entries[i], nowMs);
    hide DecodeFixKey, Decision, Released, RetentionEntries;
  }

  /** A namespace may let go of a hash exactly when some entry names it and no entry naming it still
      needs it. */
  lemma ReleasableText(entries: seq<DocEntry>, policy: RetentionPolicy, nowMs: nat, h: ContentHash)
    ensures h in Releasable(entries, policy, nowMs) <==>
      && (exists i :: 0 <= i < |entries| && entries[i].hash == h)
      && forall i :: 0 <= i < |entries| && entries[i].hash == h ==>
           var mine := DecodeFixKey(entries[i].key);
           || entries[i].timestampUs + policy.retentionMs * 1_000 < nowMs * 1_000
           || exists j ::
                && 0 <= j < |entries|
                && mine.Some? && DecodeFixKey(entries[j].key).Some?
                && DecodeFixKey(entries[j].key).value.author == mine.value.author
                && DecodeFixKey(entries[j].key).value.fixSeq > mine.value.fixSeq
  {
    forall i | 0 <= i < |entries| {
      KeptText(entries, policy, nowMs, i);
    }
    hide Kept, DecodeFixKey;
  }

  /** What each listed namespace may let go of. */
  function SweepPlan(cfg: Config, docs: Listing, nowMs: nat): Drops {
    map ns | ns in docs :: Releasable(docs[ns], cfg.retention, nowMs)
  }

  function Restrict(plan: Drops, visited: set<NamespaceId>): Drops {
    map ns | ns in plan && ns in visited :: plan[ns]
  }

  /** The ledger without the hashes whose last reference went. */
  function LedgerAfter(
    tracked: map<ContentHash, TrackedEntry>, before: map<ContentHash, Presence>, after: map<ContentHash, Presence>)
    : map<ContentHash, TrackedEntry>
  {
    map h | h in tracked && !(h in before && h !in after) :: tracked[h]
  }

  /** The index without the drops, and the ledger without the hashes nobody names any more. */
  function Dropped(m: StashState, drops: Drops): StashState {
    var after := Release(m.index, drops);
    m.(index := after, tracked := LedgerAfter(m.tracked, m.index.state, after.state))
  }

  function Swept(cfg: Config, m: StashState, docs: Listing, visited: set<NamespaceId>, nowMs: nat): StashState {
    Dropped(m, Restrict(SweepPlan(cfg, docs, nowMs), visited))
  }

  /** The namespaces a sweep looks at: known, and with a document handle. */
  function Visitable(m: StashState): set<NamespaceId> {
    m.known * m.handles
  }

  // ---------------------------------------------------------------------------------------------
  // Coupling
  // ---------------------------------------------------------------------------------------------

  /** Index and ledger track the same hashes, and their presence flags agree. */
  ghost predicate Coupled(m: StashState) {
    && WellFormed(m.index)
    && m.tracked.Keys == m.index.state.Keys
    && (forall h :: h in m.tracked && m.tracked[h].contentPresent ==> IsPresent(m.index, h))
    && (forall h :: h in m.tracked && m.tracked[h].contentPresent ==> m.tracked[h].woken)
  }

  /** What the index calls present is in the store, and the store keeps bytes under their own name. */
  ghost predicate Faithful(cfg: Config, m: StashState) {
    && (forall h :: IsPresent(m.index, h) ==> h in m.blobs)
    && (forall h :: h in m.blobs ==> cfg.digest(m.blobs[h]) == h)
  }

  /** The doubling schedule, capped at a minute; the capped shift never changes it. */
  lemma BackoffSchedule(attempts: nat)
    ensures BackoffMs(attempts) == if 500 * Pow2(attempts) < 60_000 then 500 * Pow2(attempts) else 60_000
  {
    assert Pow2(7) == 128;
    if attempts > 7 {
      Pow2Grows(7, attempts);
    }
  }

  lemma {:induction false} Pow2Grows(a: nat, b: nat)
    requires a <= b
    ensures Pow2(a) <= Pow2(b)
    decreases b - a
  {
    if a < b {
      Pow2Grows(a, b - 1);
    }
  }

  /** Converting the stamp to milliseconds first loses nothing: an entry expires exactly when its
      microsecond stamp lies more than the window behind the clock. */
  lemma ExpiryIsExactInMicroseconds(policy: RetentionPolicy, entry: DocEntry, nowMs: nat)
    ensures policy.IsExpired(EntryWrittenMs(entry), nowMs)
            <==> entry.timestampUs + policy.retentionMs * 1_000 < nowMs * 1_000
  {
  }
}
