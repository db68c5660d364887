# daemonseed core, verified

A Dafny model of the transport-free state machines and codecs of `daemonseed-core`, and of the
duplicate-key checker of `xtask`, with proofs of what they promise. Each module models one source
file, in the form the source has: objects that are updated in place are classes, loops are loops, and
each method is tied to a function of the old state; the theorems are about those functions over whole
runs. `dafny verify dfyconfig.toml` checks everything.

| modules | system |
|---|---|
| `Presence`, `PresenceRuns`, `ReapGate`, `Intervals` | the member roster, its reap gate, the jittered interval draw |
| `ShareId`, `ShareCatalog` | the share id bound to its publisher, and the catalog of shares read off a world-writable record |
| `Indexer`, `IndexerRuns` | the share index kept from walks and events, doubling as a chunk-address cache |
| `RouteGuard` | deferred release of imported routes |
| `SessionHealth`, `SessionHealthRuns` | repair detection with latch, weather suppression and backoff |
| `ShareEnvelope`, `ShareEnvelopeCodec` | the share-fetch frame codec |
| `Transcripts`, `AeadEnvelope`, `Heartbeat`, `RoomMessage`, `IdentityProof` | signing inputs, sealing and opening, identity proofs |
| `Handle`, `Mention` | wire handles and mention search |
| `Manifests`, `ManifestAliases` | the streaming YAML duplicate-key finder |
| `Bytes`, `Utf8`, `ShareManifest`, `Clock`, `Wrappers` | byte strings, length prefixes, UTF-8, manifest rows, TTL age, options and results |

## Assumptions

Every assumption is a hypothesis of the lemma that uses it; nothing is assumed globally.

- Hashing: two inputs of the run at hand do not collide in the digest bytes that are kept
  (`ShareId.CollisionFree`). It is not injectivity of the hash, which no function into 16 bytes has.
- AEAD and signatures: correctness only (`Aead.Correct`, `Scheme.Correct`); where unforgeability
  matters, that the one signature in question verifies for one input only.
- Clocks: instants never step back, and wall clock and local clock drift apart by at most a given amount.
- Files: for one path, size and modification time determine content (`IndexerRuns.Faithful`); and the size
  a hash pass reads of a file it has to read, with the time it statted, name no other content than what it
  reads (`IndexerRuns.PassesCaught`), which follows where nothing changes between stat and read, and whose
  failure `RacedRowCorrectsItself` deals with.

## Where code and documentation disagree

The model follows the code.

- `route_guard.rs` documents that a second mid-flight supersede leaves the *older* route to the
  transport's cache. The code keeps the older one for release and drops the *newer*
  (`SecondSupersedeDropsNewer`).
- `route_guard.rs` hands back superseded routes as no longer used, while a re-import keeps a route's id. A
  route superseded during a flight and imported again before its end is handed back while the entry still
  holds it, and there is no other such case (`ReleasedWhileHeld`).
- `session_health.rs` documents that a pass which read nothing changes neither streak nor latch. It
  does make an untracked record tracked, so that a stray dispatch after it doubles the next threshold
  (`NoReadThenStrayDispatch`, `StrayDispatchTells`). A run is indifferent to its no-read passes exactly when it
  has no such dispatch (`NoReadsDeletable`). A dispatch that follows a failed pass is none
  (`FailureDispatchesAreNotStray`): that covers records flagged repair-due, and those the desktop client
  repairs on a single failed pass after a manual Refresh, unflagged.
- `indexer.rs` treats events as keeping the index in step with what a reconcile makes of the tree. A change
  event keeps the row where its stat finds something other than a file, or fails without finding the path
  missing: so a stale row is left when a file gives way to a directory of the same name
  (`DirectoryLeavesStaleRow`), and when the directory above a file gives way to a file
  (`FileLeavesStaleRowBelow`). A removal delivered last drops the row of a file that is there; and an event for
  a symbolic link to a file goes through the link, where the walk passes over it (`LinkKeepsStaleRow`). Once
  every changed path has been named after it settled, these are all the ways the two part
  (`IncrementalEqualsRescan`).
- `indexer.rs` offers the fallback rescan so that changes are not silently missed. It misses deletions and
  files that come with a time no newer than its bound, and nothing else (`RescanAgrees`).
- `indexer.rs` promises one manifest from the cached pass and the uncached one, and `share_serve.rs` that an
  unreadable file aborts a pass. Where a file cannot be read and every such file has a trusted row, the
  uncached pass fails and the cached one succeeds (`UnreadableFileIsAdvertised`); everywhere else they come
  to the same (`PassesAgree`).
- `indexer.rs` says a reconcile drops what no longer exists under the root. Its prune asks through links, so
  the row of a file that a link to a file has replaced stays, with the old stat; it leaves exactly the
  present files only where no row stands under such a link (`ReconcileAgrees`).
- `indexer.rs` calls a row written for a file that changed between stat and read self-correcting. It
  is, exactly until the file comes back at the size read and the time statted with other content
  (`RacedRowCorrectsItself`, `RestoredFileServesOtherAddress`).
- `indexer.rs` says the next publish of an unchanged share reads no file. On an unchanged tree it reads a
  file exactly when a rescan that met it as newer than its bound, or a removal or change event for it, came
  after the last pass over it (`CachedIffLastTouchCaches`, `NextPassReadsNothing`).
- `manifests.rs` says a consumed value makes the next scalar a key again. An alias as a value does not
  (`AliasLeavesMappingWaiting`), so keys and values swap roles after it and a repeat can be missed
  (`AliasHidesRepeat`). The finder is right about all documents of a shape exactly when no alias in it is a
  value that another pair follows (`FinderIsExactForShape`).
- `handle.rs` says printing round-trips through parsing. It does exactly for an absent name, or a
  non-empty one without `#` or unsafe characters (`PrintThenParse`).
- `share_announce.rs` says every semantically meaningful field is signed. The sender's handle is not, in
  any of the transcripts: a beacon resealed under another handle opens (`RelabelledBeaconOpens`).
- `room_message.rs` documents that a foreign carried room id cannot validate. The carried id is never
  looked at: a message resealed with any other id in it opens as before and comes back with that id
  (`CarriedRoomIsUnchecked`); what is verified is the expected id (`SealedMessageOpensInItsRoom`).

## Model

| member | source | states |
|---|---|---|
| Presence.PresenceTracker.constructor | crates/daemonseed-core/src/presence.rs:263-270 | an unscoped tracker starts with nobody live and nobody departed |
| Presence.PresenceTracker.ForRoom | crates/daemonseed-core/src/presence.rs:275-282 | so does one scoped to a room |
| Presence.PresenceTracker.Apply | crates/daemonseed-core/src/presence.rs:303-309 | a beacon folds as a write or a leave and keeps members and marks disjoint; it reports Departed, Appeared or Refreshed exactly when its sender left, joined or was re-dated |
| Presence.PresenceTracker.ApplyMemberWrite | crates/daemonseed-core/src/presence.rs:321-334 | a chat write of another room changes nothing; one of this room folds like a beacon and can never remove anybody |
| Presence.PresenceTracker.FoldWriteInPlace | crates/daemonseed-core/src/presence.rs:338-375 | the new roster and report of a write in every case: dominated by a mark, older than the row, refresh, rejoin, first sight |
| Presence.PresenceTracker.ApplyLeave | crates/daemonseed-core/src/presence.rs:381-400 | a leave older than the member's freshest write changes nothing; any other removes the member and leaves the latest leave time as its mark |
| Presence.PresenceTracker.Reap | crates/daemonseed-core/src/presence.rs:414-432 | a congested reap changes nothing; a calm one removes exactly the expired rows and marks and returns exactly the members removed, each once, and some exactly when the roster was stale |
| Presence.PresenceTracker.StaleSuspected | crates/daemonseed-core/src/presence.rs:440-446 | true exactly when congested and a calm reap at this instant would remove someone |
| PresenceRuns.RunKeepsValid | crates/daemonseed-core/src/presence.rs:303-432 | in every run each row is filed under its own key and nobody is both live and departed |
| PresenceRuns.DepartedStaysDeparted | crates/daemonseed-core/src/presence.rs:338-432 | in every fresh-gated interleaving of beacons, chat, leaves, reaps and mark prunes, once a leave dated L is let in, any later write dated at or before L leaves the whole roster as it was |
| PresenceRuns.SettledForever | crates/daemonseed-core/src/presence.rs:338-432 | the invariant behind it: a write held back by a mark, by a fresher row or by staleness stays inert for the rest of the run, however the three hand over to one another |
| PresenceRuns.ShippedTtlCoversWindow | crates/daemonseed-core/src/presence.rs:106-175 | with the shipped constants departed stays departed in all runs of clock drift up to d exactly when d < 240 s |
| PresenceRuns.DriftBoundIsSharp | crates/daemonseed-core/src/presence.rs:414-432 | for any TTL, a write no newer than the leave brings the member back after its mark is pruned exactly when the TTL does not cover the freshness window and the drift |
| PresenceRuns.DepartedStaysIffTtlCovers | crates/daemonseed-core/src/presence.rs:177-189 | for every TTL and drift, departed stays departed in all runs exactly when the TTL exceeds window and drift together |
| PresenceRuns.SilentMemberIsReaped | crates/daemonseed-core/src/presence.rs:403-432 | a member whose writes are all signed by S is off the roster after every calm reap from S + 300 s + TTL + drift on |
| PresenceRuns.SilenceIsFifteenMinutes | crates/daemonseed-core/src/presence.rs:403-432 | with the shipped TTL that is 900 s after the signature and no less: heard at the last moment, the member is live at a calm reap exactly before it |
| PresenceRuns.FreshnessWindow | crates/daemonseed-core/src/presence.rs:185-189 | a timestamp is let in exactly from 300 s back to 60 s ahead, ends included |
| PresenceRuns.ReapKeepsTheRecent | crates/daemonseed-core/src/presence.rs:414-432 | a calm reap keeps, as they are, exactly the rows heard and the marks recorded less than a TTL ago; a congested one keeps all |
| PresenceRuns.HeardMemberStays | crates/daemonseed-core/src/presence.rs:338-432 | a fresh write that outranks what was known puts its sender on the roster until a leave no older than it is let in or a calm reap comes a whole TTL after it was heard; nobody else's message takes the sender off |
| PresenceRuns.RosterShowsLastHeard | crates/daemonseed-core/src/presence.rs:338-400 | in every run a live row shows handle, time and moment of hearing of a write of its member that was let in and not superseded since by one as new, and a mark time and moment of such a leave |
| PresenceRuns.StatusIsGreatestClaim | crates/daemonseed-core/src/presence.rs:338-400 | from any valid roster, a member's status after reap-free deliveries is the greatest of the start and all accepted claims, leave above write at equal times |
| PresenceRuns.RosterIsGreatestClaim | crates/daemonseed-core/src/presence.rs:338-400 | from an empty roster it is the greatest claim delivered, or unknown if there was none |
| PresenceRuns.RostersConverge | crates/daemonseed-core/src/presence.rs:303-400 | two runs that let in the same claims, in any order and with any repeats, agree on who is live at which beacon time and who is departed at which leave time |
| ReapGate.Gate.Observe | crates/daemonseed-core/src/presence.rs:523-535 | the hysteresis step: hot at 8 s, calm at 4 s, held in between, the grace stamped on the way down and cleared on the way up |
| ReapGate.Gate.SuspendReaping | crates/daemonseed-core/src/presence.rs:542-550 | the decision is the one SuspensionIsHistory reads off the history |
| ReapGate.ElevatedIffStillHot | crates/daemonseed-core/src/presence.rs:517-535 | over every run the gate is elevated exactly when some observation reached 8 s and none since came down to 4 s |
| ReapGate.StampIsLatestCrossing | crates/daemonseed-core/src/presence.rs:523-535 | in calm the stamp is the time of the latest hot-to-calm crossing, and absent exactly before the first |
| ReapGate.SuspensionIsHistory | crates/daemonseed-core/src/presence.rs:542-550 | reaping is suspended exactly when the regime is hot or some crossing lies less than 220 s back; 8 s, 4 s and 220 s in figures |
| ReapGate.TickReapsOnlyInCalm | crates/daemonseed-core/src/presence.rs:414-550 | a tick removes a member exactly when it is overdue, the regime is not hot and every crossing lies 220 s back; an overdue member held back is flagged stale |
| Intervals.HitCount | crates/daemonseed-core/src/presence.rs:138-157 | how many of the first n draws land on a given value, for every n and every band |
| Intervals.DrawCountsFromMin | crates/daemonseed-core/src/presence.rs:138-157 | a draw within the span is the distance from the minimum, and draws a whole band apart give the same interval |
| Intervals.DrawIsNearUniform | crates/daemonseed-core/src/presence.rs:138-157 | no draw leaves the band, every value is reached, each by the floor or the ceiling of 2^64 / (span + 1) of the draws, and a failed source gives the midpoint; for every band whose count of values is a 64-bit number |
| ShareId.ShareIdInputInjective | crates/daemonseed-core/src/share_announce.rs:167-174 | the hashed id input determines publisher and commitment |
| ShareId.RootCommitmentInputInjective | crates/daemonseed-core/src/share_announce.rs:152-158 | the hashed commitment input determines root and nonce |
| ShareId.InputLayouts | crates/daemonseed-core/src/share_announce.rs:152-174 | both inputs tag by tag and field by field, in their order, each behind its 64-bit length |
| ShareId.BindingSpelledOut | crates/daemonseed-core/src/share_announce.rs:161-187 | the binding holds exactly for a commitment of 48 bytes and an id of 32 characters that spell, high half first, the first 16 bytes of the digest of tag, key and commitment |
| Bytes.HexAt | crates/daemonseed-core/src/share_announce.rs:172-174 | byte i is written as the digit of its high half and the digit of its low half, out of 0123456789abcdef |
| ShareId.BindingNamesPublisher | crates/daemonseed-core/src/share_announce.rs:184-187 | two announcements that pass the binding under one id have the same publisher and commitment |
| ShareId.DerivedIdNamesShare | crates/daemonseed-core/src/share_announce.rs:147-174 | two derived ids are equal exactly when publisher, root and nonce are |
| ShareCatalog.Catalog.constructor | crates/daemonseed-core/src/share_catalog.rs:158-163 | a fresh catalog is empty |
| ShareCatalog.Catalog.ApplyVerified | crates/daemonseed-core/src/share_catalog.rs:177-182 | an announcement or withdraw whose id does not derive from its own key changes nothing; any other folds. Added and Removed are reported exactly when the id came or went, Updated exactly when the row says something else than before, its time of hearing aside |
| ShareCatalog.Catalog.Apply | crates/daemonseed-core/src/share_catalog.rs:197-282 | the seven branches amount to one rule, that a row yields only to its own key and to nothing older, with the same exact reports; what the rule does to a row is RowAfterEvent and RowAppears |
| ShareCatalog.Catalog.Prune | crates/daemonseed-core/src/share_catalog.rs:287-293 | exactly the expired rows go, and their number is returned |
| ShareCatalog.Catalog.Remove | crates/daemonseed-core/src/share_catalog.rs:298-300 | exactly the named row goes |
| ShareCatalog.Catalog.ReconcileSharer | crates/daemonseed-core/src/share_catalog.rs:311-337 | the filter and the refresh loop together keep and re-stamp exactly the sharer's listed rows, drop its others, leave everyone else's alone, and report whether any row went |
| ShareCatalog.Catalog.PruneSharer | crates/daemonseed-core/src/share_catalog.rs:342-346 | exactly the sharer's rows go, and their number is returned |
| ShareCatalog.RowAfterEvent | crates/daemonseed-core/src/share_catalog.rs:197-346 | of any event on a listed row: it goes exactly when its owner withdraws it no earlier than announced, leaves it out of a digest or lapses, a fetch of it fails or a prune finds it a TTL old; it is re-stamped exactly when its owner announces it no earlier than before or lists it; else it stays as it was |
| ShareCatalog.RowAppears | crates/daemonseed-core/src/share_catalog.rs:265-279 | a share not listed comes to be exactly by a bound announcement of its id that is no withdraw, and then says field by field what that says |
| ShareCatalog.BindingGivesOneKeyPerId | crates/daemonseed-core/src/share_announce.rs:161-187 | on a run without id collisions, no id is ever bound to two keys |
| ShareCatalog.ForeignStepInert | crates/daemonseed-core/src/share_catalog.rs:177-346 | another identity's announce, withdraw, digest or lapse leaves an identity's rows untouched |
| ShareCatalog.OwnStepLocal | crates/daemonseed-core/src/share_catalog.rs:177-346 | any other event acts on those rows as if they were the whole catalog |
| ShareCatalog.NonInterference | crates/daemonseed-core/src/share_catalog.rs:177-346 | over every run, the rows of p are the catalog of the run with all other identities' events deleted, through prunes and re-adds |
| ShareCatalog.RowsWereAnnounced | crates/daemonseed-core/src/share_catalog.rs:177-282 | every listed row has the id, name, rating, handle, key and time, each in its own field, of a bound announcement, the newest its key has made since |
| ShareCatalog.OwnerNeverChanges | crates/daemonseed-core/src/share_catalog.rs:233-243 | an id seen at two moments of a run has the same owner, even if it was gone in between |
| ShareCatalog.ListedUntilTaken | crates/daemonseed-core/src/share_catalog.rs:197-346 | a share stays listed until its own publisher withdraws it no earlier than it was announced, unlists it or lapses, a fetch of it fails or a TTL passes unheard, whatever anybody else sends and however stale the withdraw |
| ShareCatalog.SilentShareAgesOut | crates/daemonseed-core/src/share_catalog.rs:287-293 | a share not heard after `last` is gone at every prune from a TTL later on |
| ShareCatalog.UncheckedFoldInterferes | crates/daemonseed-core/src/share_catalog.rs:184-197 | without the ingest check the theorem fails: a stranger announcing an id first keeps its owner out |
| Indexer.HashFileChunks | crates/daemonseed-core/src/share_serve.rs:588-615 | the streaming loop yields exactly the file's ordered chunk addresses and its length, fails on an unreadable file, and stops only when asked |
| Indexer.ChunkCount | crates/daemonseed-core/src/share_serve.rs:580-586 | a file has exactly ceil(size / 1,048,576) addresses |
| Indexer.ChunkAt | crates/daemonseed-core/src/share_envelope.rs:103-112 | address i is the hash of bytes i MiB to min((i + 1) MiB, size) of the file, and of nothing else |
| Indexer.BlobIsTrusted | crates/daemonseed-core/src/indexer.rs:431-446 | a cached blob is trusted for exactly one list of addresses: those laid end to end in it, and only where they are ceil(size / 1 MiB) many |
| ShareManifest.FlatAt | crates/daemonseed-core/src/indexer.rs:438-445 | in a blob address i stands at bytes 48 i to 48 (i + 1) |
| Indexer.MissingUnlessBlocked | crates/daemonseed-core/src/indexer.rs:105-122 | where nothing stands at a path a stat finds nothing, unless some `parent/` the path begins with is there and no directory: then it fails without finding it missing |
| Indexer.StopsAtFirstSeen | crates/daemonseed-core/src/indexer.rs:212-222 | the steps run are exactly those before the first poll that sees the flag |
| Indexer.WrittenBlobParses | crates/daemonseed-core/src/indexer.rs:431-446 | a blob written back is trusted when read, and gives the very addresses it was made from |
| Indexer.ShareIndex.ScanInto | crates/daemonseed-core/src/indexer.rs:212-259 | the walk up to the cancel point upserts exactly the files met, an unchanged stat keeping its blob; the count is the number of walk positions that are files |
| Indexer.ShareIndex.ReconcileInto | crates/daemonseed-core/src/indexer.rs:275-290 | a complete reconcile is the scan restricted to present files; one cut short is the partial scan alone |
| Indexer.ShareIndex.ApplyEvent | crates/daemonseed-core/src/indexer.rs:99-131 | one event touches one row: it is written for a file, links followed, dropped for a missing path, and kept where the stat finds a directory, fails below a file or in a loop of links, fails in passing, or the path is outside the root |
| Indexer.ShareIndex.MtimeRescan | crates/daemonseed-core/src/indexer.rs:157-182 | exactly the files with a modification time greater than the bound are upserted, without addresses, and the count is the number of walk positions that are such |
| Indexer.ShareIndex.CachedOrHash | crates/daemonseed-core/src/indexer.rs:352-424 | the manifest built, the rows written and the exact list of files read, with stat and read at different moments; uncancelled it succeeds exactly when every file it has to read opens, and on error the rows written so far stand |
| IndexerRuns.HashShare | crates/daemonseed-core/src/share_serve.rs:388-411 | the uncached pass returns the hash of every file; uncancelled it succeeds exactly when every file can be read |
| IndexerRuns.CacheRefinesHash | crates/daemonseed-core/src/indexer.rs:321-424 | from a sound index the cached pass returns exactly the manifest of hashing every file as the pass saw it, which is the tree itself when nothing moves |
| IndexerRuns.RunKeepsSound | crates/daemonseed-core/src/indexer.rs:99-424 | every history of scans, reconciles, rescans, events and passes, complete or cut short, over a changing tree keeps the cache sound, as long as each pass catches what it reads |
| IndexerRuns.CachedPassAfterAnyHistory | crates/daemonseed-core/src/indexer.rs:321-352 | so after any such history from an empty index, over a tree whose stats determine content, the manifest a cached pass builds is the one an uncached pass builds |
| IndexerRuns.PassesAgree | crates/daemonseed-core/src/indexer.rs:334-340 | from a sound index, uncancelled and on one tree, both passes come to the same manifest or failure exactly unless some file cannot be read and each such file has a trusted row |
| IndexerRuns.UnreadableFileIsAdvertised | crates/daemonseed-core/src/indexer.rs:381-391 | a file hashed once and then made unreadable is such a case |
| IndexerRuns.MissesAreUntrusted | crates/daemonseed-core/src/indexer.rs:381-391 | the files a pass has to read are exactly those listed without a trusted row |
| IndexerRuns.RacedRowCorrectsItself | crates/daemonseed-core/src/indexer.rs:389-410 | the row of a file rewritten between stat and read gives right addresses afterwards exactly unless the file is back at the size read and time statted with other addresses |
| IndexerRuns.RestoredFileServesOtherAddress | crates/daemonseed-core/src/indexer.rs:389-410 | such a file: right as read, wrong once the old file is put back with its old time |
| IndexerRuns.WarmReadsNothing | crates/daemonseed-core/src/indexer.rs:381-391 | a pass reads no file exactly when every file has a trusted row |
| IndexerRuns.CachedIffLastTouchCaches | crates/daemonseed-core/src/indexer.rs:99-424 | over any operations on an unchanged tree a file's addresses are cached exactly when the last operation to touch them was a pass over it, or nothing touched them and they were cached before |
| IndexerRuns.NextPassReadsNothing | crates/daemonseed-core/src/indexer.rs:321-326 | after one full pass and any operations on the unchanged tree, the next pass reads no file exactly when no rescan past its bound, removal or change event has come for a file since the last pass over it |
| IndexerRuns.RescanForgetsNewer | crates/daemonseed-core/src/indexer.rs:157-182 | the fallback rescan forgets the addresses of exactly the walked files whose modification time is greater than its bound |
| IndexerRuns.RescanAgrees | crates/daemonseed-core/src/indexer.rs:157-182 | it keeps the index in step exactly when every path that changed is now a file whose modification time is greater than its bound |
| IndexerRuns.ReconciledStat | crates/daemonseed-core/src/indexer.rs:261-290 | after a complete reconcile a path's row is its stat if it is a file and absent if not, whatever the index held, except that under a link to a file the row stays as it was |
| IndexerRuns.ReconcileAgrees | crates/daemonseed-core/src/indexer.rs:261-290 | so a complete reconcile leaves exactly the present files exactly when the index held no row under a link to a file |
| IndexerRuns.CutShortDeletesNothing | crates/daemonseed-core/src/indexer.rs:273-283 | a cancelled one deletes no row and leaves those it did not reach alone |
| IndexerRuns.EventsStat | crates/daemonseed-core/src/indexer.rs:99-131 | after any events, the tree moving on between them, a path's row is what the last one to act on it saw: its stat, links followed, or nothing; events that fail to stat, find a directory, lie below a file or outside the root do not act |
| IndexerRuns.IncrementalEqualsRescan | crates/daemonseed-core/src/indexer.rs:99-290 | events interleaved with changes, every changed path named once more when it has settled, leave row for row what a reconcile of the final tree leaves, exactly when no row is left where a stat finds a directory or fails, no removal comes last for a file that is there, and no event parts the two at a link |
| IndexerRuns.ChangeEventsEqualRescan | crates/daemonseed-core/src/indexer.rs:99-290 | in particular change events for every changed path, applied after the change to a tree without links in any order and with repeats, agree with a reconcile exactly when no file gave way to a directory, nor a directory above a file to a file |
| IndexerRuns.ChangesAloneNeverDrop | crates/daemonseed-core/src/indexer.rs:99-125 | change events alone never bring about the second exception |
| IndexerRuns.DirectoryLeavesStaleRow | crates/daemonseed-core/src/indexer.rs:112-114 | when a file gave way to a directory, its row stays after the event and goes with the reconcile |
| IndexerRuns.FileLeavesStaleRowBelow | crates/daemonseed-core/src/indexer.rs:115-122 | so does the row of d/f when d gives way to a file, whatever the names and contents |
| IndexerRuns.LinkKeepsStaleRow | crates/daemonseed-core/src/indexer.rs:105-111 | when a link to a file took a file's place, a change event stores the target's stat, a removal drops the row, and a reconcile keeps the old one |
| RouteGuard.ImportedRouteGuard.NoteFetchStarted | crates/daemonseed-core/src/route_guard.rs:92-99 | one more fetch is out, and a withdraw mark is void; every stored entry is in flight or holds exactly a current route |
| RouteGuard.ImportedRouteGuard.NoteFetchFinished | crates/daemonseed-core/src/route_guard.rs:108-145 | the entry left and the routes handed back, waiting one first, in every case including the unmatched finish; the same invariant |
| RouteGuard.ImportedRouteGuard.NoteAdvertReplaced | crates/daemonseed-core/src/route_guard.rs:155-171 | released at once when idle, held back in flight, dropped when one already waits; the same invariant |
| RouteGuard.ImportedRouteGuard.NoteShareWithdrawn | crates/daemonseed-core/src/route_guard.rs:190-205 | released and forgotten when idle, marked in flight; the same invariant |
| RouteGuard.ImportedRouteGuard.Gc | crates/daemonseed-core/src/route_guard.rs:208-212 | only a stateless entry is dropped |
| RouteGuard.RoutesAreConserved | crates/daemonseed-core/src/route_guard.rs:92-212 | over every run, as multisets: imported = current + waiting + released + abandoned, with only two ways to abandon; and the stored-entry invariant |
| RouteGuard.NoReleaseInFlight | crates/daemonseed-core/src/route_guard.rs:108-205 | a call that hands a route back leaves its share with no fetch in flight |
| RouteGuard.InFlightIsOutstanding | crates/daemonseed-core/src/route_guard.rs:92-145 | the in-flight count is the number of started and unfinished fetches, read off the calls alone |
| RouteGuard.ReleasedOnlyWhenIdle | crates/daemonseed-core/src/route_guard.rs:92-212 | in every run a route is released only at a call after which every started fetch has finished |
| RouteGuard.WithdrawnShareIsSettled | crates/daemonseed-core/src/route_guard.rs:173-205 | withdrawing an idle share forgets it with everything it imported released or abandoned |
| RouteGuard.WithdrawWaitsForFetch | crates/daemonseed-core/src/route_guard.rs:179-205 | after a withdraw with any number of fetches out and any calls but a fresh fetch, nothing is released while one is out, and the call that brings the share to idle forgets it with everything it imported released or abandoned |
| RouteGuard.FreshFetchVoidsWithdraw | crates/daemonseed-core/src/route_guard.rs:92-99 | after a fresh fetch, whatever came before it, and any calls but a withdraw, no fetch that finishes hands back the current route, and what it imports becomes it: the withdraw racing a re-import is void |
| RouteGuard.SupersededRouteComesBack | crates/daemonseed-core/src/route_guard.rs:147-171 | a superseded route comes back at once and the share is forgotten when no fetch is out; else nothing comes back while one is, whatever calls follow, and the call that ends the flight hands it back |
| RouteGuard.ImportIsCurrent | crates/daemonseed-core/src/route_guard.rs:108-145 | what a finished fetch imports becomes the current route, or is handed back where no entry is kept |
| RouteGuard.WaitingComesFirst | crates/daemonseed-core/src/route_guard.rs:124-137 | of two routes handed back at once the one that waited comes first |
| RouteGuard.SecondSupersedeDropsNewer | crates/daemonseed-core/src/route_guard.rs:163-171 | of two supersedes in one flight, with any number of fetches out and any calls after, nothing comes back before the flight ends, the call that ends it hands the first route back, and the second stays abandoned |
| RouteGuard.SecondSupersedeIsReachable | crates/daemonseed-core/src/route_guard.rs:163-171 | that entry is reached from a fresh guard |
| RouteGuard.ReleasedWhileHeld | crates/daemonseed-core/src/route_guard.rs:108-145 | a route is handed back while the entry still holds it exactly when a fetch ends the flight of a share not withdrawn and leaves current the very route that was waiting |
| RouteGuard.ReleasedWhileHeldIsReachable | crates/daemonseed-core/src/route_guard.rs:108-171 | which an import, a supersede in flight and a re-import under the same id bring about |
| RouteGuard.SharesAreIndependent | crates/daemonseed-core/src/route_guard.rs:72-212 | in a guard of many shares, a share's entry depends on the calls on it alone |
| SessionHealth.SessionHealthTracker.constructor | crates/daemonseed-core/src/session_health.rs:172-177 | nothing tracked, K = 2 |
| SessionHealth.SessionHealthTracker.WithThreshold | crates/daemonseed-core/src/session_health.rs:180-185 | nothing tracked, the given K |
| SessionHealth.SessionHealthTracker.Observe | crates/daemonseed-core/src/session_health.rs:199-240 | the record and decision after a pass, saturation included; other records untouched |
| SessionHealth.SessionHealthTracker.NoteRepairDispatched | crates/daemonseed-core/src/session_health.rs:253-259 | streak and latch reset, multiplier doubled up to 8, an untracked record left untracked |
| SessionHealth.SessionHealthTracker.Clear | crates/daemonseed-core/src/session_health.rs:265-267 | the record is untracked again, backoff included |
| SessionHealth.SessionHealthTracker.IsRepairDue | crates/daemonseed-core/src/session_health.rs:280-282 | true exactly for a latched record |
| SessionHealthRuns.RecordsAreIndependent | crates/daemonseed-core/src/session_health.rs:199-282 | a record's state depends on the events on that record alone |
| SessionHealthRuns.StreakCounter | crates/daemonseed-core/src/session_health.rs:199-240 | within a streak the counter is the number of failed passes since it began, saturated at 0xFFFF_FFFF, and the multiplier stands still |
| SessionHealthRuns.StreakLatch | crates/daemonseed-core/src/session_health.rs:221-240 | the latch is set exactly when some pass of the streak failed in calm with enough failures behind it |
| SessionHealthRuns.DecisionIsHistory | crates/daemonseed-core/src/session_health.rs:187-240 | a pass is told RepairDue exactly when it failed in calm, the failures since the last success, dispatch or drop reached K times the multiplier, and no earlier pass of the streak did so: at most once per episode |
| SessionHealthRuns.FailedPassIsUnserviced | crates/daemonseed-core/src/session_health.rs:93-108 | over the reads of a sweep, each a slot, an empty slot or no answer: it fails exactly when the watch is dead, or some read got no answer and none yielded a slot; it succeeds exactly when it read something and did not fail |
| SessionHealthRuns.SweepIsToldDue | crates/daemonseed-core/src/session_health.rs:187-240 | and so a sweep is told RepairDue exactly when it failed in that sense, in calm, the failures of the streak reach K times the multiplier with it, and no earlier one was told so; never for an empty record read without error |
| SessionHealthRuns.SuppressedIffDueInCalm | crates/daemonseed-core/src/session_health.rs:233-239 | a pass is told Suppressed exactly when it would be told RepairDue but for the weather |
| SessionHealthRuns.SuppressionOnlyDelays | crates/daemonseed-core/src/session_health.rs:233-239 | a suppressed pass would have been due in calm, and through any passes that read nothing or fail in elevated weather the next failed pass in calm is due |
| SessionHealthRuns.TrackedIsHistory | crates/daemonseed-core/src/session_health.rs:199-267 | a record is tracked exactly when some pass has been seen since it was last dropped |
| SessionHealthRuns.MultiplierIsHistory | crates/daemonseed-core/src/session_health.rs:242-259 | the multiplier is 2 to the number of repairs dispatched since the last success or drop, at most 8 |
| SessionHealthRuns.MultiplierBounded | crates/daemonseed-core/src/session_health.rs:253-259 | in every run it is 1, 2, 4 or 8 |
| SessionHealthRuns.NoReadMattersOnlyToUntrackedDispatch | crates/daemonseed-core/src/session_health.rs:202-207 | a no-read pass changes what the next event leaves exactly when that event dispatches a repair for an untracked record |
| SessionHealthRuns.NoReadsDeletable | crates/daemonseed-core/src/session_health.rs:196-207 | deleting every no-read pass changes no record at any point of a run exactly when no dispatch finds a record of which only no-read passes have been seen since it was dropped |
| SessionHealthRuns.NoReadsDecideNothing | crates/daemonseed-core/src/session_health.rs:196-240 | so in a run without such a dispatch no pass, at any point, is told anything else for the no-read passes before it |
| SessionHealthRuns.StrayDispatchTells | crates/daemonseed-core/src/session_health.rs:199-259 | after such a dispatch the k-th failed pass in calm is due with the no-read passes deleted and not due with them |
| SessionHealthRuns.FailureDispatchesAreNotStray | crates/daemonseed-gui/src/veilid_net.rs:1640-1654 | no dispatch that follows a failed pass of the record, not dropped since, is of that kind, flagged or armed by a manual Refresh |
| SessionHealthRuns.FlaggedDispatchesFollowFailures | crates/daemonseed-core/src/session_health.rs:269-282 | and every dispatch for a flagged record follows one |
| SessionHealthRuns.NoReadThenStrayDispatch | crates/daemonseed-core/src/session_health.rs:199-259 | the shortest such run, in which the deletion turns NotDue into RepairDue |
| SessionHealthRuns.RateInvariant | crates/daemonseed-core/src/session_health.rs:199-259 | with no success, every signal has been paid for: failed passes cover the cost of the repairs dispatched plus the current streak |
| SessionHealthRuns.RepairRateBound | crates/daemonseed-core/src/session_health.rs:199-259 | d repairs take at least K * (2^min(d,4) - 1 + 8 * max(0, d - 4)) failed passes |
| SessionHealthRuns.RepairRateIsExact | crates/daemonseed-core/src/session_health.rs:199-259 | over any run that only fails, in calm weather, with each repair sent before the next failure and no-read passes anywhere, exactly as many repairs are signalled as the failed passes pay for |
| ShareEnvelope.EncodeChunks | crates/daemonseed-core/src/share_envelope.rs:191-193 | the inner loop lays the addresses end to end |
| ShareEnvelope.EncodeEntry | crates/daemonseed-core/src/share_envelope.rs:181-193 | one entry's wire form, its lengths truncated as the casts truncate them |
| ShareEnvelope.EncodeEntries | crates/daemonseed-core/src/share_envelope.rs:181-194 | the outer loop lays the entries end to end |
| ShareEnvelope.EncodeManifest | crates/daemonseed-core/src/share_envelope.rs:178-194 | the count, truncated to 32 bits, and the entries behind it |
| ShareEnvelope.Encode | crates/daemonseed-core/src/share_envelope.rs:167-213 | the wire form of each frame kind, which FrameRoundTrip inverts |
| ShareEnvelope.Reader.constructor | crates/daemonseed-core/src/share_envelope.rs:283-285 | the whole buffer remains to be read |
| ShareEnvelope.Reader.ReadSlice | crates/daemonseed-core/src/share_envelope.rs:287-295 | a read that fits takes exactly its bytes off what remains; one that does not is Truncated and moves nothing |
| ShareEnvelope.Reader.ReadInt | crates/daemonseed-core/src/share_envelope.rs:297-316 | a big-endian integer of the given width is read whole or refused |
| ShareEnvelope.DecodeChunks | crates/daemonseed-core/src/share_envelope.rs:237-243 | the loop over a claimed count agrees with slicing the addresses off at once |
| ShareEnvelope.DecodeEntry | crates/daemonseed-core/src/share_envelope.rs:224-248 | one entry, or the first of Truncated and BadUtf8 met in field order |
| ShareEnvelope.DecodeEntries | crates/daemonseed-core/src/share_envelope.rs:221-250 | the loop over a claimed count agrees with parsing the entries recursively |
| ShareEnvelope.Decode | crates/daemonseed-core/src/share_envelope.rs:217-272 | decoding agrees with the parser DecodedIsCanonical and PrefixesAreTruncated are about |
| ShareEnvelopeCodec.EntryRoundTrip | crates/daemonseed-core/src/share_envelope.rs:181-250 | an entry that fits is read back whole, whatever follows it |
| ShareEnvelopeCodec.ParsedEntryIsCanonical | crates/daemonseed-core/src/share_envelope.rs:224-250 | a parsed entry fits, and its encoding is exactly what was consumed |
| ShareEnvelopeCodec.CutEntryIsTruncated | crates/daemonseed-core/src/share_envelope.rs:224-250 | an entry cut anywhere is refused as Truncated, never as BadUtf8 |
| ShareEnvelopeCodec.FrameRoundTrip | crates/daemonseed-core/src/share_envelope.rs:165-272 | decode(encode(f)) = f exactly when the lengths of f fit their prefixes |
| ShareEnvelopeCodec.DecodedIsCanonical | crates/daemonseed-core/src/share_envelope.rs:215-272 | whatever decodes fits, and encode(decode(b)) is a prefix of b |
| ShareEnvelopeCodec.PrefixesAreTruncated | crates/daemonseed-core/src/share_envelope.rs:215-272 | every proper prefix of an encoded request or manifest is Truncated; a chunk response cut past its address decodes to shorter data |
| ShareEnvelopeCodec.DecodedManifestIsPaidFor | crates/daemonseed-core/src/share_envelope.rs:221-250 | a decoded manifest of n entries and m addresses cost at least 5 + 14n + 48m bytes, path bytes besides |
| ShareEnvelopeCodec.FrameLayout | crates/daemonseed-core/src/share_envelope.rs:167-213 | the kind byte is 0, 1, 2 or 3, a manifest count is its low four bytes most significant first, addresses and data follow bare |
| ShareEnvelopeCodec.EntryLayout | crates/daemonseed-core/src/share_envelope.rs:181-193 | an entry is the low two bytes of the path length, path, size in eight bytes, the low four bytes of the address count, addresses |
| ShareEnvelopeCodec.EntriesInOrder | crates/daemonseed-core/src/share_envelope.rs:181-194 | entries stand one behind the other |
| ShareEnvelopeCodec.EntryErrors | crates/daemonseed-core/src/share_envelope.rs:224-248 | an entry is refused as BadUtf8 exactly when its path is all there and is not UTF-8, whatever follows |
| ShareEnvelopeCodec.RefusalsAreExact | crates/daemonseed-core/src/share_envelope.rs:217-272 | a frame is refused as UnknownKind exactly for a kind byte above 3, which the error names; as BadUtf8 exactly when behind sound entries, fewer than the count claims, comes a path that is all there and not UTF-8; and as Truncated otherwise |
| Utf8.ValidIffEncoded | crates/daemonseed-core/src/share_envelope.rs:224-232 | bytes pass as UTF-8 exactly when they are the encoding of some text of Unicode scalar values by section 3 of RFC 3629 |
| Transcripts.HeartbeatInput | crates/daemonseed-core/src/heartbeat.rs:143-167 | the buffer built, id loop included, is the transcript TranscriptInjective is about |
| Transcripts.ShareAnnounceInput | crates/daemonseed-core/src/share_announce.rs:252-281 | the same for share announcements |
| Transcripts.RoomInput | crates/daemonseed-core/src/room_message.rs:61-79 | the same for room and circle messages |
| Transcripts.HeartbeatLayout | crates/daemonseed-core/src/heartbeat.rs:143-167 | tag, room, key, time, number of ids, each id, leave flag, in that order |
| Transcripts.ShareAnnounceLayout | crates/daemonseed-core/src/share_announce.rs:252-281 | tag, room, key, id, commitment, name, rating, withdraw flag, time |
| Transcripts.RollCallLayout | crates/daemonseed-core/src/share_rollcall.rs:88-99 | tag, room, key, time |
| Transcripts.RoomPostLayout | crates/daemonseed-core/src/room_message.rs:61-79 | the tag of the surface, room, key, time, body |
| Bytes.LpLayout | crates/daemonseed-core/src/share_announce.rs:265-270 | each field stands behind its length, an integer with its most significant byte first |
| Transcripts.FieldsInjective | crates/daemonseed-core/src/share_announce.rs:265-270 | a list of length-prefixed fields is determined by its bytes, its length included |
| Transcripts.DomainsDiverge | crates/daemonseed-core/src/share_announce.rs:75 | no two domain tags agree to the end of the shorter, which is why they need no length |
| Transcripts.TranscriptInjective | crates/daemonseed-core/src/heartbeat.rs:138-167 | equal transcripts come from one kind of message with equal bound fields: heartbeat, room, circle, announcement and roll-call inputs determine all their fields and never coincide |
| AeadEnvelope.SealEnvelope | crates/daemonseed-core/src/aead_envelope.rs:56-74 | nonce, ciphertext and tag in that order, or the entropy or encryption failure |
| AeadEnvelope.EnvelopeRoundTrip | crates/daemonseed-core/src/aead_envelope.rs:76-104 | sealing adds exactly 28 bytes and opening recovers the plaintext |
| AeadEnvelope.SealedLayout | crates/daemonseed-core/src/aead_envelope.rs:56-74 | 12 bytes of nonce, the ciphertext, 16 bytes of tag |
| AeadEnvelope.OpensBySplitting | crates/daemonseed-core/src/aead_envelope.rs:86-104 | opening splits any bytes, whoever made them, at the same places; fewer than 28 are TooShort and no others |
| Heartbeat.PadPlaintext | crates/daemonseed-core/src/heartbeat.rs:173-185 | in place on a fixed buffer: prefix, message, zeros; TooLarge exactly when it does not fit |
| Heartbeat.PadRoundTrip | crates/daemonseed-core/src/heartbeat.rs:169-202 | every frame is 8192 bytes and unpadding recovers what was framed |
| Heartbeat.PaddedLayout | crates/daemonseed-core/src/heartbeat.rs:173-185 | four bytes of length, least significant first, the message, and nothing but zeros up to 8192 bytes |
| Heartbeat.SealHeartbeat | crates/daemonseed-core/src/heartbeat.rs:230-270 | what is sealed is the padded encoding of the message signed over its own transcript; too large is refused before sealing |
| Heartbeat.SealedBeaconOpens | crates/daemonseed-core/src/heartbeat.rs:230-319 | whatever its fields, a beacon that seals is 8220 bytes and opens to the signed message, every field given in its own place |
| Heartbeat.OpenedBeaconIsAsSigned | crates/daemonseed-core/src/heartbeat.rs:301-319 | a beacon opened with a signature has every bound field as signed |
| Heartbeat.RelabelledBeaconOpens | crates/daemonseed-core/src/heartbeat.rs:143-167 | and the handle is free: resealed under any other that fits, it opens with that handle |
| Heartbeat.OpenFailsClosed | crates/daemonseed-core/src/heartbeat.rs:187-319 | nothing unverified is returned, every malformed length is Truncated, Authentication means a failed tag and CipherFailed a failed cipher, and nothing else |
| Heartbeat.OpenedFrameIsJudged | crates/daemonseed-core/src/heartbeat.rs:284-319 | an opened frame is Undecodable exactly when it does not decode, and what decodes is returned exactly when it is signed with a key and signature of the right lengths, else Provenance |
| RoomMessage.SealSignedRoomMessage | crates/daemonseed-core/src/room_message.rs:91-132 | what is sealed is the encoding of the message signed for its surface and room |
| RoomMessage.SealedMessageOpensInItsRoom | crates/daemonseed-core/src/room_message.rs:91-195 | a sealed message opens for the room it was signed for, with room, sender, handle, body and time as given, and is a Provenance error for every other expected room |
| RoomMessage.CarriedRoomIsUnchecked | crates/daemonseed-core/src/room_message.rs:150-195 | with any other carried room id in it, a message opens exactly when it did, and comes back carrying that id |
| RoomMessage.NoCrossSurfaceReplay | crates/daemonseed-core/src/room_message.rs:52-79 | a signature that opens on a surface was made for that surface, room, author, time and body, whatever kind of transcript it might have been made for |
| RoomMessage.OpenFailsClosed | crates/daemonseed-core/src/room_message.rs:150-195 | each outcome exactly: Truncated below 28 bytes, Authentication for a failed tag, CipherFailed for a failed cipher, Undecodable for what does not decode, the message when it is signed for the expected room, else Provenance |
| RoomMessage.TagsAreApart | crates/daemonseed-core/src/room_message.rs:13-14 | heartbeats and the two surfaces seal under three different tags, given in full |
| IdentityProof.BuildSigningInput | crates/daemonseed-core/src/identity_proof.rs:114-137 | the buffer built is the input SigningInputInjective is about |
| IdentityProof.BuildEnvelope | crates/daemonseed-core/src/identity_proof.rs:147-176 | the envelope carries its fields as given and a signature over exactly their signing input |
| IdentityProof.SigningInputInjective | crates/daemonseed-core/src/identity_proof.rs:112-137 | the input determines session, handle, key, version, time and counter |
| IdentityProof.SigningInputLayout | crates/daemonseed-core/src/identity_proof.rs:114-137 | binding bare, handle and key behind 16-bit lengths, both version numbers in four bytes, time and counter in eight |
| IdentityProof.InputIsNoTranscript | crates/daemonseed-core/src/identity_proof.rs:112-137 | though untagged, it equals no heartbeat of a room under 2^48 bytes unless its handle is empty, and no tagged transcript of a room under 2^16 bytes with a handle of 1 to 12,543 bytes; in general only with the one handle length that transcript puts in its place |
| IdentityProof.HonestEnvelopeAccepted | crates/daemonseed-core/src/identity_proof.rs:258-335 | an envelope built for a session is accepted there exactly when suite, role, handle binding, time and counter are right, and a gap is flagged exactly when a counter value was passed over |
| IdentityProof.AcceptedExactly | crates/daemonseed-core/src/identity_proof.rs:258-335 | whoever made it, an envelope is accepted exactly when suite, role, handle, handle prefix, key and signature lengths, signature, five-minute window and counter are all right |
| IdentityProof.NoCrossSessionReplay | crates/daemonseed-core/src/identity_proof.rs:251-316 | an envelope accepted in two sessions means they share binding and version |
| IdentityProof.SeenCoversAccepted | crates/daemonseed-core/src/identity_proof.rs:207-211 | the recorded highest counter covers everything accepted before |
| IdentityProof.AcceptedCountersIncrease | crates/daemonseed-core/src/identity_proof.rs:318-330 | over any run the counters accepted from one key strictly increase, so nothing is accepted twice |
| Handle.ParseClassifies | crates/daemonseed-core/src/handle.rs:268-311 | the accepted strings are exactly name#hhhhhhhhhhhh with an acceptable name, and each error is given exactly when it is the first that applies |
| Handle.ParsedForm | crates/daemonseed-core/src/handle.rs:268-311 | whatever is accepted has that form and a name that prints back |
| Handle.PrintThenParse | crates/daemonseed-core/src/handle.rs:240-311 | parse(print(h)) = h exactly when the name is absent or non-empty and safe |
| Handle.HexTextAt | crates/daemonseed-core/src/handle.rs:250-255 | a prefix byte is printed as the digit of its high half and the digit of its low half |
| Handle.NameAlphabet | crates/daemonseed-core/src/handle/display_name.rs:98-104 | a name is acceptable exactly when each character lies in one of seven ranges, given in figures |
| Handle.ParseThenPrint | crates/daemonseed-core/src/handle.rs:240-311 | print(parse(s)) is s with its hex digits in lower case |
| Handle.BoundHandleIsKeyed | crates/daemonseed-core/src/handle.rs:157-187 | the displayed handle always carries the key's prefix, shows a name exactly when the text parses to it under that prefix, and prints back |
| Mention.NeedleHasNoBorder | crates/daemonseed-core/src/mention.rs:41-42 | for every parsed handle, no proper start of @name#hex is also its end |
| Mention.GreedyFindsAll | crates/daemonseed-core/src/mention.rs:43-44 | so searching on from the end of each match misses no occurrence |
| Mention.MentionsAreExact | crates/daemonseed-core/src/mention.rs:33-62 | the spans found are exactly the places where the text reads @ and the printed handle with no alphanumeric before and none of 0-9, a-f, A-F behind, in order and disjoint |
| Mention.ResolutionStaysInScope | crates/daemonseed-core/src/mention.rs:75-93 | a full handle resolves to itself; other text goes by the places in scope that bear exactly that name: none is not found, one resolves to the handle there, more are ambiguous with the handles there in their order, repeats counted |
| Manifests.DuplicateFinder.constructor | xtask/src/manifests.rs:51-55 | empty stack, nothing found |
| Manifests.DuplicateFinder.MarkValueDone | xtask/src/manifests.rs:58-64 | only a mapping on top of the stack is affected |
| Manifests.DuplicateFinder.OnEvent | xtask/src/manifests.rs:68-115 | the stack and findings after one event, pops of an empty stack included |
| Manifests.DuplicateFinder.Load | xtask/src/manifests.rs:123-130 | feeding a stream one event at a time is the run FinderIsExact is about |
| Manifests.StreamEqualsTree | xtask/src/manifests.rs:57-116 | over the events of any node, wherever a value may stand, the finder ends with its starting stack, the value consumed, having appended exactly the tree's repeats in document order |
| Manifests.FinderIsExact | xtask/src/manifests.rs:118-130 | a fresh finder ends a stream of documents with an empty stack and exactly their repeats |
| Manifests.CleanIffUnique | xtask/src/manifests.rs:118-130 | no repeats exactly when the key texts of every mapping are distinct, the finder's reading of section 3.2.1.1 of YAML 1.2.2 |
| ManifestAliases.NodeStack | xtask/src/manifests.rs:57-116 | whatever aliases stand inside it, a node leaves the frames below alone and as a value is consumed as a whole |
| ManifestAliases.AliasLeavesMappingWaiting | xtask/src/manifests.rs:113 | after any value at all a mapping awaits a key again exactly when the value was not an alias |
| ManifestAliases.SpotIsMisread | xtask/src/manifests.rs:84-113 | in any context and whatever its text, the key after the first alias value is not taken for a key |
| ManifestAliases.PlantedGoesUnreported | xtask/src/manifests.rs:84-113 | named after the key before it, that key is a repeat the finder does not report, in a document where it reports nothing |
| ManifestAliases.FinderIsExactForShape | xtask/src/manifests.rs:57-130 | the finder reports exactly the repeats of every document of a shape exactly when no alias in the shape is a value that another pair follows |
| ManifestAliases.AliasHidesRepeat | xtask/src/manifests.rs:113 | in {z: &x 0, a: *x, b: 1, b: 2} the repeated b is not reported |

## Left out

- Cryptographic primitives, HKDF and the per-share nonce, key-schedule, hashing and signing failures, and the zeroing of plaintext buffers.
- The protobuf codec, which is a parameter with a round trip, and the text conversion of wire strings to characters.
- Sealing and opening of share announcements and roll-calls (share_announce.rs, share_rollcall.rs): the same envelope and checks as heartbeats and room messages; only their transcripts are modelled.
- Times are whole milliseconds and wall clocks unbounded: sub-millisecond durations, and overflow at the ends of the 64-bit range in `beacon_is_fresh`, are not captured.
- Overflow of the 32-bit in-flight count of `note_fetch_started`.
- Listing order: the sorted `members()` and `entries()` views, `len`, and tracker construction from a cadence.
- The file system, the redb index, its storage errors, the watcher, background threads and the mapping of watcher events: a tree, a map, a walk and a cancel point stand for them. A loop of links or a path nobody may look at is a node whose stat fails; a stat that fails in passing is the event's. A walk's listing and its stat happen together, so an entry that cannot be statted is one the walk does not yield; only the hash pass separates stat from read. Progress callbacks are not modelled.
- Paths that are not UTF-8, which the walks skip and the hash pass renders in a form of its own.
- UTF-8 widths in handles and mentions: text is characters, so a hex segment's length counts characters where the source counts bytes, and spans are character positions. Whether a character is alphanumeric is a parameter.
- Case-insensitive file systems, where the row of a file's old spelling survives the prune, and Windows separators, under which scan and hash pass key their rows differently.
- An interval band of all 2^64 milliseconds, for which `span + 1` overflows and the draw panics.
- YAML parsing itself, the comparison of keys as nodes rather than texts (by section 3.2.1.1, `1` and `"1"` differ, and `16` and `0x10` do not), and keys that are not scalars; tags and anchors do not reach the finder.
- Identity proofs: deriving the channel binding, and timing; a signed field over 64 KiB, on which the source panics, is excluded by its type.
- The repair-rate bound is for 8K within 32 bits; the threshold saturates beyond it, as `Threshold` models.
- Whitelist checks, the chain-of-trust module, browse retry, backoff jitter and formatting (floating point), secret seeds, biometrics, autostart, the command-line clients and the rest of xtask: outside these state machines, or facts of one branch.
