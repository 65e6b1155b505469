# The stash's content life cycle, in Dafny

A stash replicates entry records and holds, in memory only, the ciphertext those records name. This
project models what it keeps about that ciphertext and what every handler does to it, and proves what
holds over whole runs: which bytes a reader is served, when they may be let go of, when subscribers
are woken, and how often a missing blob is fetched. Beside it stand the pieces the life cycle relies
on or that guard the logs: the retention rule, the fix-key and namespace codecs, the subscription
registry, concurrent registration, and the log redactor.

| file | what it holds |
|---|---|
| `Bytes.dfy`, `Ids.dfy`, `Utf8.dfy` | bytes and character classes, the two kinds of id, well-formed UTF-8 (RFC 3629, section 4) and character boundaries |
| `HexCodec.dfy`, `FixKeys.dfy` | the hex codecs and the location-fix key |
| `Retention.dfy` | the release rule of one namespace |
| `Content.dfy` | `ContentIndex`, its value and its release algebra |
| `Subscriptions.dfy` | `NamespaceRegistry` and its history |
| `Stash.dfy` | the state of the stash and each handler's effect as one step |
| `Node.dfy` | the handlers as they update index, ledger, registry and store, proved against `Stash.dfy` |
| `Protocol.dfy` | runs: any order of handlers, blobs appearing by themselves, and collections |
| `Effects.dfy` | what each handler leaves behind, field by field and in plain numbers, and the terms of the statements about runs spelled out |
| `Delivery.dfy`, `SweepProperties.dfy` | what readers get, what a sweep takes |
| `Timing.dfy`, `Wakes.dfy` | when retries happen and what a wake rules out; exactly which entries are woken for, and how often |
| `Registration.dfy` | the registration protocol step by step |
| `Interleaving.dfy`, `Windows.dfy`, `Solo.dfy` | the handlers' lock steps in any order, the handlers as programs between their locks, and that one nobody interrupts does what it does as one step |
| `Redaction.dfy`, `Redactor.dfy`, `LogText.dfy` | the redactor, its guarantees, and both in plain characters |

A listing of a namespace's entries is an argument of every sweep, so a run covers every history of
the docs entries. The blob store is a map that only has to answer whether it holds a hash; blobs may
appear in it at any time, and collection may take any hashes the index does not protect. The content
hash is any function on bytes. Iteration over hash maps and sets picks elements in no particular
order, and the contracts hold for every order.

## Granularity

`Protocol.dfy` takes each handler as one step, and `Delivery.Handle` shows that the node's methods take
exactly such steps. `Interleaving.dfy` and `Windows.dfy` split the handlers at their locks; a handler
that nobody interrupts still does what the one step says (`Solo.dfy`).

- What survives every interleaving: the index invariant, and that an entry marked as having its bytes
  is marked woken (`Interleaving.SurvivesInterleaving`).
- That index and ledger track the same hashes does not. An arrival is open between its reference and
  its ledger entry, a sweep between its last release and the removal it owes. If the two are never
  open together for one hash, index and ledger agree whenever neither is open, and so when all
  handlers have finished (`Windows.AgreeWithoutOverlap`, `Windows.AgreeAtRest`). For every
  interleaving, overlapping or not, they agree on a hash if and only if the last words on it in the
  order of lock steps do (`Windows.AgreeOnTrace`). `Windows.SweepInsideArrival` and
  `Windows.ArrivalInsideSweep` are complete runs, every handler finished, that end in disagreement;
  after the second a hash stays wanted while no ledger entry stands for it, and no number of settle
  passes notices (`Interleaving.OrphanIsNeverSettled`).
- That bytes called present are stored survives as long as no collection takes a referenced hash,
  which the collector's callback sees to, or one that a handler has found in the store and is about
  to mark, which nothing sees to (`Windows.PresentStaysStored`). From a state in which it holds, it
  can break without a further collection if and only if such a handler's bytes are already gone
  (`Windows.BreaksExactly`); `Windows.CollectionInsideArrival` is a complete run in which it breaks
  although the collection takes nothing referenced.

## Where the code and its comments differ

The model follows the code.

- "Wakes fire once" (`rust/src/node.rs:142`) holds of settle passes (`Timing.SettleWakesOnce`). A
  re-delivery of an unwoken entry whose bytes have landed wakes without setting the flag, so a
  lifetime has two wakes or more if and only if a re-delivery in it wakes and a pass or another
  re-delivery follows (`Wakes.TwoWakesExactly`); `Wakes.TwoWakesInOneLifetime` gives both kinds of run.
- An entry whose bytes are already stored when it first arrives is never woken for: the arrival
  handler inserts the entry with its wake flag set and reads that flag back
  (`rust/src/node.rs:474-498`). An entry that becomes servable has had a settle wake if and only if it
  is marked woken and its bytes were absent on that arrival (`Wakes.PassWakesExactly`), and then it
  gets one (`Wakes.AbsentOnArrivalGetsItsWake`); `Wakes.PresentOnArrivalHappens` is a run in which it
  is served and nobody was woken.
- A hash that two namespaces name is woken for, by settle passes, in the name of the first only
  (`Wakes.OnlyFirstNamespaceIsWoken`).
- Author hex is read in either case, so two keys can carry the same author and sequence; neither
  supersedes the other. A sweep keeps at most one fix of each author if and only if, of any two
  entries that tie, one has expired or a newer fix supersedes both (`SweepProperties.OneKeptFixPerAuthor`).
  `SweepProperties.TwoSpellingsAreBothKept` is a listing where it keeps two.
- The sweep forgets only hashes that a listed entry names. A hash whose entries are all gone from the
  listing stays referenced (`SweepProperties.SweepIsExact`).
- A second redaction can redact more. It does if and only if a stretch of the line between two
  redacted ranges holds text that by itself reads as an address, or the line has a redacted range and
  part of the marker reads as one (`Redactor.SecondPassExactly`); `Redactor.SecondPassCanRedactMore`
  is such a line, for every address parser that accepts `::1` and rejects the line.
- Registration holds the handle map so that a namespace is imported once (`rust/src/node.rs:374-376`).
  A call whose join fails has imported already, and the next call imports again: the successful
  imports are counted exactly by `Registration.ImportsExactly`, and `Registration.SecondImportHappens`
  is a run with two.

## Model

| member | source | states |
|---|---|---|
| Protocol.RunKeepsInv | rust/src/node.rs:448-506 | in every state reachable by arrivals, passes, uploads, sweeps, registrations, appearing blobs and collections: ledger keys, index keys and the union of all namespaces' hashes are one set, no namespace's set is empty, presence flags agree with each other and with the store, stored bytes carry their own address, and every indexed namespace is known and has a handle |
| Protocol.ReadsAreServed | rust/src/node.rs:275-290 | in every reachable state a reader is served exactly when its namespace names the hash and the index calls it present, collected blobs notwithstanding, and the bytes served hash to the name asked for |
| Protocol.CollectKeepsInv | rust/src/node.rs:210-228 | collecting any set of hashes the index does not list keeps all of the above |
| Protocol.HeldUntilReleased | rust/src/content.rs:43-49 | over every run, a namespace's reference, its ledger entry and its servable bytes survive every step except a sweep that finds all the namespace's entries for the hash releasable |
| Protocol.SettleCountsExactly | rust/src/node.rs:552-589 | after every pass the hashes counted missing are exactly the referenced hashes the store does not hold |
| Protocol.MissingCoversAbsent | rust/src/content.rs:130-137 | between passes the count never hides an absent payload |
| Delivery.PassServesWhatItCan | rust/src/node.rs:562-576 | after a pass a named hash is served exactly when its bytes were stored, or its retry was due and the download succeeded, and then those bytes are served |
| Delivery.UploadIsServed | rust/src/node.rs:304-333 | the right bytes, offered to a known namespace that names them, are served at once to every namespace that does, and leave the missing count; any other upload changes nothing |
| Delivery.ArrivalIsAccounted | rust/src/node.rs:457-496 | an arriving record is named and on the ledger, servable exactly when the bytes are stored, and disturbs nothing servable |
| Delivery.HealthAfterPass | rust/src/node.rs:263-272 | the health number read after a pass counts the referenced hashes not in the store |
| Delivery.Handle | rust/src/node.rs:448-589 | the node's methods take exactly the steps of a run: each turns the state it finds into the next state of a legal step and keeps the invariant |
| Effects.ArrivalEffect | rust/src/node.rs:457-496 | an arrival adds one reference, never takes a presence back, leaves every entry on the ledger as it was, and touches nothing else |
| Effects.SettleEffect | rust/src/node.rs:562-586 | what a pass makes of each field of an entry: the presence flag exactly when the store has the bytes, the wake flag then or at 30 s, and a failed attempt counted up to 4294967295 and put off |
| Effects.SettleFrame | rust/src/node.rs:552-589 | and of everything else: references, registry and stored bytes stay, and only due downloads are stored |
| Effects.PassFindsAll | rust/src/node.rs:571-577 | after a pass an entry's presence flag is set if and only if the store has the bytes, and if and only if the index calls them present |
| Effects.NextPassSkipsStored | rust/src/node.rs:553-560 | the next pass looks at exactly the tracked hashes the store lacks, and one that brings no bytes leaves the others as they are |
| Effects.SettleWakeText | rust/src/node.rs:582-586 | a pass wakes for a hash exactly when its entry has neither flag, and its bytes are stored, or are due and downloaded, or it is 30 s old |
| Effects.UploadEffect | rust/src/node.rs:304-333 | exactly which uploads store and mark, and that they touch neither references nor ledger |
| Effects.SweepFrame | rust/src/node.rs:739-804 | a sweep touches neither registry nor bytes, and what stays indexed or tracked stays as it was |
| SweepProperties.SweepIsExact | rust/src/node.rs:743-804 | a namespace keeps a hash exactly when it had it and it was not visited, or its listing does not name the hash, or an entry naming it is inside the window, in microseconds, and no listed key decodes to that entry's author with a greater sequence |
| SweepProperties.FreshOtherStays | rust/src/retention.rs:150-155 | the content of a key that is no fix stays as long as the entry is inside the window |
| Stash.KeptText | rust/src/retention.rs:179-198 | when an entry still needs its content, from stamps and decoded keys alone |
| Stash.ReleasableText | rust/src/node.rs:755-789 | and when a namespace may let go of a hash |
| SweepProperties.SharedHashIsProtected | rust/src/node.rs:720-724 | a hash keeps its index state and its ledger entry exactly while some namespace still holds it; otherwise it loses both |
| SweepProperties.LedgerShrinksWithIndex | rust/src/node.rs:799-803 | the released count is the drop in tracked entries |
| SweepProperties.SecondSweepChangesNothing | rust/src/content.rs:99-105 | a second sweep on the same listing and clock is the identity |
| SweepProperties.SweepTwice | rust/src/content.rs:99-105 | and reports zero |
| SweepProperties.ForgetsAreOneDrop | rust/src/node.rs:791-804 | any sequence of forgets is one simultaneous release, and as many of them report the last reference as hashes leave the index |
| SweepProperties.OrderIsIrrelevant | rust/src/node.rs:739-804 | final index, final ledger and released count do not depend on the order of namespaces and hashes |
| SweepProperties.HoldingsAreBounded | rust/src/retention.rs:62-68 | after a sweep, when ties on (author, sequence) are settled by a newer fix or by age, a namespace holds of the hashes its entries name at most one per author with a kept fix plus one per fresh non-fix entry |
| SweepProperties.OneKeptFixPerAuthor | rust/src/retention.rs:171-198 | no two kept fixes share an author if and only if, of any two entries with the same author and sequence, one has expired or a newer fix supersedes both |
| SweepProperties.SurvivorsNumberAuthors | rust/src/retention.rs:171-198 | and the same condition decides whether the kept fixes number at most their authors |
| SweepProperties.TwoSpellingsAreBothKept | rust/src/retention.rs:208-209 | without that, one author in two spellings keeps two contents |
| Timing.SettleWakesOnce | rust/src/node.rs:582-586 | once a settle pass has woken for a tracked lifetime nothing wakes for it again |
| Timing.PresentOnArrivalIsNeverWoken | rust/src/node.rs:474-498 | an entry that finds its bytes on first arrival is never woken for in its lifetime |
| Timing.ArrivalWakeIsRepeated | rust/src/node.rs:482-498 | every wake by a re-delivery is repeated by the next pass |
| Wakes.TwoWakesExactly | rust/src/node.rs:142-143 | a stretch of a lifetime holds two wakes or more if and only if a re-delivery in it wakes and a pass or another re-delivery of the hash follows |
| Wakes.TwoWakesInOneLifetime | rust/src/node.rs:482-498 | runs in which that happens: a re-delivery then a pass, and two re-deliveries with no pass between |
| Wakes.WokenExactly | rust/src/node.rs:466-488 | an entry is marked woken if and only if its bytes were stored on its first arrival or a pass of its lifetime has woken for it |
| Wakes.PassWakesExactly | rust/src/node.rs:474-498 | a pass has woken for a lifetime if and only if it is marked woken and its bytes were absent when it began; where they were stored nothing ever wakes for it |
| Wakes.AbsentOnArrivalGetsItsWake | rust/src/node.rs:552-589 | an entry that came without bytes has its wake after the first pass that finds them or comes 30 s after the arrival |
| Wakes.PresentOnArrivalHappens | rust/src/node.rs:474-498 | a run in which an entry is served and was never woken for |
| Wakes.OnlyFirstNamespaceIsWoken | rust/src/node.rs:482-488 | every settle wake of a lifetime names the namespace whose arrival began it |
| Timing.SettleTiming | rust/src/node.rs:552-588 | the pass's filter never skips an unwoken entry; a wake is degraded exactly when the bytes are still absent, and then at least 30 s old; entries left unwoken are younger than 30 s |
| Timing.RetriesAreSpaced | rust/src/node.rs:577-580 | over every run the n-th failed fetch of a lifetime comes at least 1000*(2^(n-1)-1) ms after the first for n up to 7, and 63,000 + 60,000*(n-7) ms from there on |
| Timing.RetryIsDueWithinAMinute | rust/src/node.rs:144-160 | a pass a minute or more after the last failure tries again; an entry without failures is due at once |
| Timing.NewcomersAreFresh | rust/src/node.rs:467-479 | what an entry holds when it enters the ledger, field by field |
| Stash.BackoffSchedule | rust/src/node.rs:154-160 | the delay is min(500*2^k, 60000) for every k, so capping the shift changes nothing |
| Effects.BackoffNumbers | rust/src/node.rs:154-160 | the delays themselves: 500 ms doubling to 32 s, then 60 s |
| Stash.ExpiryIsExactInMicroseconds | rust/src/node.rs:72-80 | converting the stamp to milliseconds first decides expiry as microseconds would |
| Node.StashNode.constructor | rust/src/node.rs:246-258 | a new node knows, tracks and stores nothing |
| Node.StashNode.Watch | rust/src/node.rs:448-498 | the new state, and a wake for this namespace exactly when the entry was already tracked, unwoken and stored |
| Node.StashNode.SettleOnce | rust/src/node.rs:552-589 | the new state for every visiting order, and exactly one wake for each entry without either flag whose bytes are now stored or which is 30 s old, with the entry as it was, degraded exactly when the bytes are still absent |
| Node.StashNode.SettleOne | rust/src/node.rs:563-587 | one round of the pass: fetch, backoff, wake, and a presence flag exactly when the store has the bytes |
| Node.StashNode.PutContent | rust/src/node.rs:304-333 | each of the five outcomes exactly by registry, reference, content hash and store, and the new state |
| Node.StashNode.ContentBytes | rust/src/node.rs:275-290 | the stored bytes, exactly when the namespace names the hash, the index calls it present and the store has it |
| Node.StashNode.ContentStats | rust/src/node.rs:269-272 | the number of missing hashes, and the number of hashes some namespace names |
| Node.StashNode.Register | rust/src/node.rs:377-402 | handle before knowledge, a watcher exactly for a new namespace, and no trace of a failed import |
| Node.StashNode.PruneOnce | rust/src/node.rs:735-812 | for every visiting order: the state is the simultaneous release of what the visited listings allow (`Stash.ReleasableText`), the sweep finishes if and only if every known namespace with a handle lists, and then exactly those were visited and the count is the drop in tracked hashes |
| Node.StashNode.SweepNamespace | rust/src/node.rs:743-804 | the same for one namespace, releasing what `Stash.ReleasableText` says |
| Node.StashNode.ForgetAll | rust/src/node.rs:791-804 | forgetting a set of hashes in any order, ledger entries going with the last reference |
| Node.HashesToForget | rust/src/node.rs:755-789 | exactly the hashes some entry names and of which every entry is past the window or older than a listed fix of its author |
| Content.ContentIndex.constructor | rust/src/content.rs:52-54 | an empty index |
| Content.ContentIndex.Want | rust/src/content.rs:58-61 | adds the one reference; a hash that has a state keeps it |
| Content.ContentIndex.MarkPresent | rust/src/content.rs:65-69 | marks a referenced hash and ignores any other |
| Content.ContentIndex.Forget | rust/src/content.rs:106-128 | takes the one reference; true exactly when the namespace named the hash and no other does |
| Content.ContentIndex.MissingCount | rust/src/content.rs:132-137 | the number of wanted hashes, by counting |
| Content.ContentIndex.TrackedCount | rust/src/content.rs:140-142 | the number of hashes some namespace names |
| Content.ContentIndex.Referenced | rust/src/content.rs:149-151 | exactly the hashes some namespace names |
| Content.ReleaseTwice | rust/src/content.rs:106-128 | releases compose: one after another is both at once |
| Retention.ReleaseDecisions | rust/src/retention.rs:161-198 | superseded if and only if a listed key decodes to the same author with a greater sequence, expired if and only if stamp plus window lies before the clock, and each combination its own reason |
| Retention.LatestByAuthor | rust/src/retention.rs:171-177 | the one-pass map holds each author's greatest sequence, and only authors of fixes |
| Retention.BelowLatestIsSuperseded | rust/src/retention.rs:184-188 | comparing with that maximum is the same as a newer fix existing |
| Retention.EveryAuthorKeepsALatestFix | rust/src/retention.rs:135-137 | every author of a listed fix has one that nothing supersedes |
| Retention.ControlEntriesOnlyExpire | rust/src/retention.rs:150-155 | control keys are never superseded and age out like any other |
| Retention.ReleaseIsMonotone | rust/src/retention.rs:161-198 | more entries or a later clock never take a release back |
| Retention.SaturationNeverDecides | rust/src/retention.rs:36-59 | on every 64-bit clock the saturating window decides as unbounded arithmetic would |
| FixKeys.PrintThenDecode | rust/src/retention.rs:228-230 | every non-empty author and 64-bit sequence survives print then decode |
| FixKeys.DecodeThenPrint | rust/src/retention.rs:81-97 | re-printing a decoded key gives the key in lower case |
| FixKeys.DecodesExactlyPrintedKeys | rust/src/retention.rs:74-97 | a key decodes to a fix if and only if its lower-case form is that fix printed |
| FixKeys.FixKeyText | rust/src/retention.rs:81-97 | character by character: a pair of hex digits of either case for each author byte, a slash, and twenty digits that read as the sequence, below 18446744073709551616 |
| FixKeys.ControlKeysAreNotFixes | rust/src/retention.rs:77-79 | no control key is read as a fix |
| FixKeys.KeyOrderIsSequenceOrder | rust/src/retention.rs:79-80 | for one author, byte order of keys is numeric order of sequences |
| HexCodec.HexDecode | rust/src/retention.rs:200-214 | accepts exactly the even-length texts over 0-9, a-f and A-F, and each byte is the one its two digits name |
| HexCodec.DecodeMeaning | rust/src/retention.rs:200-214 | decoding accepts exactly the even-length hex texts, and printing gives them back in lower case |
| HexCodec.ParseNamespaceHex | rust/src/api.rs:99-120 | accepts exactly the 64-character texts over 0-9 and a-f, and each byte of the id is the one its two digits name |
| HexCodec.NamespaceHex | rust/src/push.rs:28-34 | each byte prints as the digit of its high half, then of its low half |
| HexCodec.EncodeInjective | rust/src/push.rs:28-34 | different ids print differently |
| HexCodec.NamespaceHexRoundTrip | rust/src/api.rs:97-111 | parse inverts print on every 32-byte id, and print inverts parse on every accepted text |
| Subscriptions.NamespaceRegistry.constructor | rust/src/subscriptions.rs:63-65 | the empty history |
| Subscriptions.NamespaceRegistry.Register | rust/src/subscriptions.rs:69-76 | true exactly for a namespace never registered in the registry's history; adds the one target and no other |
| Subscriptions.NamespaceRegistry.Unsubscribe | rust/src/subscriptions.rs:81-92 | true exactly when the history's last mention of the target for the namespace subscribed it; removes that one and no other; the namespace stays known |
| Subscriptions.NamespaceRegistry.WakeTargets | rust/src/subscriptions.rs:96-102 | exactly the targets whose last mention in the history subscribed them |
| Subscriptions.HistoryDecidesTargets | rust/src/subscriptions.rs:67-108 | after any history the targets are exactly those whose last mention subscribed them |
| Subscriptions.HistoryDecidesKnown | rust/src/subscriptions.rs:67-108 | and a namespace is known exactly when ever registered |
| Registration.RegistrationIsOnce | rust/src/node.rs:374-402 | in every interleaving of any number of registrations: one call in the critical section, at most one watcher per namespace, every known namespace has a handle, and its watcher once nobody is about to spawn one |
| Registration.ImportsExactly | rust/src/node.rs:377-395 | in every interleaving the successful imports of a namespace number its handle, its failed joins and the join under way; so it is imported at most once if and only if no join has failed, or one has and nobody has imported since |
| Registration.SecondImportHappens | rust/src/node.rs:382-391 | a run with two |
| Registration.FailsExactly | rust/src/node.rs:382-391 | in every interleaving a call has failed if and only if its own import or its own join did |
| Registration.SomeoneCanGoOn | rust/src/node.rs:374-402 | no interleaving gets stuck: an unfinished call can go on, or the call that holds the map can |
| Registration.CallGetsHandle | rust/src/node.rs:377-395 | a call that finds the map free reuses the handle that is there, or imports and joins |
| Registration.CallRegisters | rust/src/node.rs:397-401 | with a handle it makes the namespace known, and spawns the watcher exactly when it was not |
| Registration.EveryInterleavingKeepsInv | rust/src/node.rs:374-402 | the inductive invariant behind it |
| Interleaving.SurvivesInterleaving | rust/src/content.rs:51-128 | at lock granularity, in every interleaving, the index stays well formed and present bytes imply the wake flag |
| Interleaving.AgreeExactly | rust/src/node.rs:457-488 | in every interleaving, index and ledger agree about a hash if and only if these coincide: some namespace's last step about it is a want; its last insertion or removal is an insertion |
| Windows.RunsAreInterleavings | rust/src/node.rs:448-506 | every run of handlers between their locks is one of these interleavings, so the two invariants hold of it |
| Windows.AgreeWithoutOverlap | rust/src/node.rs:790-801 | if an arrival's window and a sweep's window for a hash are never open together, index and ledger agree about it whenever neither is open |
| Windows.AgreeAtRest | rust/src/node.rs:790-801 | so, once every handler has finished, they hold the same hashes |
| Windows.AgreeOnTrace | rust/src/node.rs:457-488 | and in every run, overlapping or not, exactly when the trace's last words on the hash agree |
| Windows.SweepInsideArrival | rust/src/node.rs:460-488 | a complete run: a whole sweep between an arrival's two locks leaves a ledger entry nobody references |
| Windows.ArrivalInsideSweep | rust/src/node.rs:794-801 | a complete run: a whole arrival between a sweep's two locks leaves a wanted hash without a ledger entry |
| Windows.PresentStaysStored | rust/src/node.rs:210-228 | in every run whose collections take nothing referenced and nothing about to be marked, what the index calls present is stored |
| Windows.PresentIsStoredThroughout | rust/src/node.rs:210-228 | the same from the start, with the collections' condition spelled out |
| Windows.BreaksExactly | rust/src/node.rs:465-496 | from a state in which that holds, some run without a further collection breaks it if and only if a handler is about to mark a hash whose bytes are gone |
| Windows.CollectionInsideArrival | rust/src/node.rs:465-496 | a complete run that breaks it, though the collection takes nothing referenced |
| Interleaving.OrphanIsNeverSettled | rust/src/node.rs:553-560 | such a hash stays missing through any number of passes |
| Solo.ArrivalAlone | rust/src/node.rs:457-496 | an arrival nobody interrupts does, lock by lock, what it does as one step |
| Solo.RoundAlone | rust/src/node.rs:562-587 | so does a round of a pass |
| Solo.UploadAlone | rust/src/node.rs:310-332 | and an upload |
| Solo.ForgetAlone | rust/src/node.rs:794-803 | and a sweep's forget |
| Redactor.RedactLogLine | rust/src/log_redaction.rs:8-65 | scans, sort and cursor compute the per-byte redaction, the result is clean and valid text, and no slice leaves the line or splits a character |
| Redaction.Scan | rust/src/log_redaction.rs:13-45 | a scan terminates and lists exactly the accepted maximal runs |
| Redactor.Merge | rust/src/log_redaction.rs:51-64 | the cursor loop, on any ranges with whole-character ends |
| Redaction.MergeMeetsPerByteSpec | rust/src/log_redaction.rs:51-64 | for overlapping, nested or adjacent ranges in any number: uncovered bytes are copied once and in order, covered bytes never, markers at shown range ends |
| Redaction.CoveredStretchEndsInMarker | rust/src/log_redaction.rs:54-62 | no two copied pieces are joined across cut text without a marker |
| Redactor.RedactedIsClean | rust/src/log_redaction.rs:28-45 | no identifying maximal run is left in any line (`LogText.NoTokenSurvives` says it in characters) |
| Redactor.GapIsClean | rust/src/log_redaction.rs:13-45 | not even where address ranges cut a run that was left alone |
| Redactor.RangeBoundaries | rust/src/log_redaction.rs:19-22 | every range begins and ends on a character boundary |
| Redactor.PasteIsValid | rust/src/log_redaction.rs:51-64 | redacting valid UTF-8 leaves valid UTF-8 |
| Utf8.ValidIsText | rust/src/log_redaction.rs:8-65 | valid text is a sequence of encoded characters, every code point but the surrogates |
| Utf8.BoundaryExactly | rust/src/log_redaction.rs:19-22 | the boundaries are the places where valid text can be cut into two valid texts |
| LogText.CharacterClasses | rust/src/log_redaction.rs:67-73 | the characters of addresses and of tokens, in full |
| LogText.SensitiveText | rust/src/log_redaction.rs:13-45 | the ranges to redact: whole stretches of 0-9 a-f A-F . : that read as an address, and whole stretches of 32 or more of 0-9 a-z A-Z _ - + / = with a digit or of hex digits only |
| LogText.CopiedOrCut | rust/src/log_redaction.rs:51-64 | a byte is copied exactly when no such range holds it; otherwise it adds nothing or `[REDACTED]` |
| LogText.TokenIsCut | rust/src/log_redaction.rs:28-45 | no byte of such a token is copied, whatever else is on the line, and the line changes |
| LogText.AddressIsCut | rust/src/log_redaction.rs:13-27 | nor any byte of an address |
| LogText.PlainLineStays | rust/src/log_redaction.rs:47-49 | a line with neither is returned as it is |
| LogText.NoTokenSurvives | rust/src/log_redaction.rs:28-45 | in a redacted line every whole word of 32 or more characters has no digit and is not all hex |
| LogText.RedactsWordByWord | rust/src/log_redaction.rs:8-65 | a character of neither class splits the work: the two sides are redacted on their own and joined by it |
| LogText.TokenAlone | rust/src/log_redaction.rs:51-64 | a token by itself becomes exactly one `[REDACTED]` |
| Redactor.UnchangedExactlyWhenNothingSensitive | rust/src/log_redaction.rs:47-49 | a line is returned as it is if and only if it holds nothing sensitive |
| Redactor.SecondPassExactly | rust/src/log_redaction.rs:8-65 | a second pass changes the result if and only if a stretch of the line between redacted ranges, or at an end, holds text that by itself reads as an address, or something is redacted and part of the marker reads as one |
| Redactor.AddressAroundMarker | rust/src/log_redaction.rs:51-64 | the marker joins no network runs: text with a marker in it reads as an address exactly when one of its sides or the marker does |
| Redactor.SecondPassCanRedactMore | rust/src/log_redaction.rs:8-65 | a line for which it does, whatever else the parser accepts |

## Left out

- Node.StashNode.SettleOnce: clocks and retry times are unbounded, so a 64-bit clock within a minute of its end, where the source's addition would overflow, is not modelled; the 32-bit attempt counter does saturate.
- Node.StashNode.SettleOnce: the store's `has` never fails in the model; the source reads a failed query as "absent" and tries again.
- Node.StashNode.PutContent: the second comparison, of the hash the store reports, cannot differ from the first in the model, because one function is the content hash.
- Node.StashNode.Register: takes the outcome of importing and joining as one argument; `Registration.dfy` has them as separate steps.
- Redaction.Scan: parsing of IP and socket addresses is an arbitrary predicate on the candidate text.
- Redaction.SortUnstable: the library sort is modelled by a function that returns the sorted permutation, not in place.
- Tags, the downloader's choice of peers and its timeout, gossip and range reconciliation: libraries that are not part of this model.
- The delivery service, the push senders and the wake payloads: a wake is recorded as an event.
- The HTTP server, request validation, authorization, configuration and telemetry counters: plumbing whose members would be easy.
- Deployment files and documents.
