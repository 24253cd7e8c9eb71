# A verified model of the l5m storage and retrieval engine

The engine keeps *capsules* (a claim with its evidence, masks, validity window, fingerprint and
relation edges) in a log-structured store, answers probes over every tier of that store under
tenant, context, policy, trust and time gates, and keeps an access trail, a rate limit and metering
beside it. This project models that engine in Dafny, in the shape of its Rust sources, and proves
what its documentation and tests promise.

The results, hardest first:

* **The segment format, both ways.** `SegmentFormat.AcceptedExactly`: the loader accepts a byte
  string and returns `g` if and only if the bytes are a file of `g` in the format, which
  `SegmentFormat.Format` writes out field by field at literal offsets, digest included.
  `SegmentFormat.DigestPinsFile` and `AlteredFileRefused` say what the digest protects.
  `SegmentRoundTrip.RoundTripExactly`: writing a list of capsules and loading the bytes gives the
  list back in id order if and only if every capsule fits the record format and is loadable, ids are
  distinct and all embeddings have one width. `AcceptedReassembles` is the converse for arbitrary
  accepted bytes. The writer (`SegmentWriter`) and the defensive reader (`SegmentReader`) are the
  source's loops, proved equal to those functions on every byte string, with every index in range
  and every allocation hint bounded by the input.
* **What a restart recovers.** `Durability` is a machine whose disk holds bytes and log entries and
  whose steps are logging, applying, compacting, writing a checkpoint, adopting or refusing it, and
  truncating, with a crash possible between any two. A checkpoint enters the disk as the bytes the
  writer makes of memory, readable or not. `ReadableBaseRecovers`: at every point of every run, a
  base list a restart may be given recovers the acknowledged map, plus the one operation in flight
  if it had reached the log, if and only if it can be read. `CheckpointReadable`: the next
  checkpoint can be read if and only if every live capsule owns its edges.
  `NoAcknowledgedWriteLost`: while inserts own their edges, every base list recovers;
  `ForeignEdgeStrandsRestart` is the run in which one that does not leaves nothing to recover from.
  The proofs discharge reading and replaying by the round trip above, the log codec round trip
  (`WalCodec.LogRoundTrip`) and `Lsm.ReplayIdempotent`.
* **The tiers are one map.** `Lsm` defines the live map of buffer, sealed runs, base and tombstones
  and proves insert an update, delete a removal, and seal, minor and full compaction no change;
  `Store.MemoryStore` carries this out on mutable fields, `Store.ReplayLog` by the positional single
  pass over the log that recovery uses.
* **Indexes agree with a plain scan.** `CandidateSearch.GateScan` builds, from postings, columnar
  rows, supersede flags and bit sets, exactly the set `Gates.Eligible` defines by scanning.
  `BandedSearch.AnnRecall` gives the recall of the 16-band search by pigeonhole, and
  `Lsh.SixteenCanMiss` shows its distance bound cannot be raised. `Retrieve.Retrieve` joins gates,
  search, fusion, ordering, budget and relations. What each of these means is stated on its own,
  by bits, positions and counts: `Gates.EligibleMeans`, `CandidateSearch.ExactTopMeans`,
  `BandedSearch.AnnTopMeans`, `Fusion.FusedByCounting`, `Retrieve.BudgetDecides`,
  `Retrieve.ExpandedMeans`.
* **Ingestion.** `WalCodec.BuiltMeans` says what becomes of every field of an entry, and
  `Terms.ExtractedExactly` which terms a text has: the maximal runs of token bytes, stripped and
  lower-cased.
* **Queries disclose only what is live and permitted.** `Query.Query` covers the four modes, and
  every id it shows is live. `EndToEnd.QueryAfterDelete` joins it to
  `Durability.DeletedStaysDeleted`: once a delete is acknowledged, no query in any mode returns the
  id, among entries or conflicts, after any run of writes, compactions, checkpoints, crashes and
  recoveries that does not insert it again. `Versions.VersionShown` says which version of an id a
  merged answer shows, for any tiers, and `Versions.NewestIsLive` that the newest copy is the live
  one; `Completeness.RoomyIsComplete` that an answer holds all that the search, exact or banded,
  found when the caps and the budget have room for it.
* **Trail, limits, metering.** `Audit.LastHashPinsLog`, `RateLimit.TenantBounded` with
  `RateLimit.TenantBurstGranted`, `Metering.CountersCount` and `Metering.OwnKeys` are statements
  over whole runs.

Where the code and its documentation disagree, the model follows the code:

* An insert is accepted and acknowledged whatever the owner named in its relation edges
  (crates/l5m-core/src/compiler.rs:310-373), and a checkpoint is written in place before it is read
  back (compiler.rs:94-106), but a segment with a foreign edge is refused on loading
  (crates/l5m-core/src/segment.rs:332-337). The unreadable file stays, and the server's next start
  takes the newest checkpoint and exits (crates/l5m-server/src/main.rs:70-92).
  `Durability.CheckpointReadable` is the exact condition, `Durability.ForeignEdgeStrandsRestart` the
  failing run, for every capsule with a foreign edge.
* A capsule valid until the largest representable second comes back from a segment with no end of
  validity: the format stores "no end" as that number.
  `SegmentRoundTrip.LastSecondMeansNoEnd`: the bytes are those of the capsule without an end.
* An embedding lane that is not finite is accepted and acknowledged, logged as a JSON null, and
  refused on replay. `WalCodec.LogRoundTrip` says an entry replays exactly when its capsule is
  canonical and its lanes are finite; `Store.NullLaneStopsOpening` that one such entry keeps the
  whole log from opening.
* The merge of segment answers is documented as always resolving an id to its freshest version
  (crates/l5m-core/src/store.rs:710-715). Gates run per segment first, so an old version is shown
  while the new one is gated out. `Versions.NewestShownIffEligible`: over any tiers, among copies the
  search can find and with room for all answers, the newest copy is shown exactly when it is
  eligible in its own segment, and otherwise the last eligible older one, if any.
  `EndToEnd.QueryAfterDistrust` is a store and a query that show the old version;
  `Versions.CompactedIsFresh` and `Versions.SoleVersionIsLive` are cases in which the promise holds.
* Segments the operator lists come before the checkpoint (crates/l5m-server/src/main.rs:43-73), so
  after a compaction has dropped the log, a capsule deleted or updated since is back in its old
  form. `Durability.OperatorSegmentsFirst`: with any log written since, recovery is right exactly
  when every capsule of those segments that the log does not mention is in the checkpoint as it is
  there. `Durability.OperatorSegmentUndeletes` is the run in which an acknowledged delete comes back.
* The hash of an audit record is documented to change with any change to any field
  (crates/l5m-core/src/audit.rs:76-77). Fields are hashed without separators:
  `Audit.BoundaryNotHashed` moves a byte across a field boundary unnoticed,
  `Audit.ShiftGoesUnnoticed` does so inside any accepted log, which stays accepted, and
  `Audit.HashPinsFields` states what a hash does pin.
* The last latency row is labelled one second but also counts slower queries;
  `Metering.RowsRendered` states exactly when the row is right, `Metering.SlowQueryMiscounted` is the
  failing input.
* The rate limiter's bound needs timestamps that do not step back (they are read before the lock is
  taken): `RateLimit.BoundIffOrdered` says the advertised bound holds for every limiter exactly when
  they do not, `RateLimit.GrantedBounded` gives a bound for any timestamps, and
  `RateLimit.BackwardClockGrantsMore` is a failing input.

Library calls whose code is not modelled (the digest, the UTF-8 validator, the text fingerprints,
the embedding signature) are the fields of `Capsules.Env`, arbitrary functions throughout. A hash is
taken to be collision-free only in the audit results, and only over the inputs at hand.

`dafny verify dfyconfig.toml` checks everything.

## Model

| member | source | states |
|---|---|---|
| SegmentRoundTrip.RoundTripExactly | crates/l5m-core/src/compiler.rs:123-224 | the assembled bytes load as exactly the input in id order if and only if the input is well formed (sizes fit, texts valid, hashes match, edges owned, ids distinct, one embedding width) |
| SegmentRoundTrip.AssembledSegmentLoads | crates/l5m-core/src/segment.rs:67-142 | for inputs that fit the format, assembly succeeds exactly when embeddings have one width, and the result loads as the sorted input or, if a capsule is not loadable or an id repeats, is refused |
| SegmentRoundTrip.AcceptedReassembles | crates/l5m-core/src/segment.rs:67-142 | the capsules of any accepted byte string can be assembled again, and those bytes load as the same capsules sorted |
| SegmentRoundTrip.AcceptedSegment | crates/l5m-core/src/segment.rs:67-142 | every accepted segment has loadable, representable capsules, distinct ids and one embedding width |
| SegmentRoundTrip.AcceptedCapsule | crates/l5m-core/src/segment.rs:269-365 | in an accepted record every string and list stands inside the string section, where its reference says, and its edges end inside the relation section |
| SegmentRoundTrip.AcceptedListIsCanonical | crates/l5m-core/src/segment.rs:469-514 | an accepted list occupies exactly its declared blob, inside its section, although inner checks test only the whole buffer; the final cursor test is what makes it so |
| SegmentRoundTrip.AcceptedRelations | crates/l5m-core/src/segment.rs:315-339 | accepted edges are as many as declared, all owned by their capsule, and end inside the relation section |
| SegmentRoundTrip.ListReadBack | crates/l5m-core/src/compiler.rs:488-499 | a written list reads back as the same list, or is refused for invalid UTF-8, and for nothing else |
| SegmentRoundTrip.UriReadBack | crates/l5m-core/src/segment.rs:419-439 | an optional URI reads back, the all-ones reference standing for none and for no string |
| SegmentRoundTrip.RelationsReadBack | crates/l5m-core/src/segment.rs:396-417 | written edges read back unchanged when all are owned, and are refused as foreign otherwise |
| SegmentRoundTrip.CapsuleReadBack | crates/l5m-core/src/segment.rs:269-365 | a stored record reads back as its capsule exactly when the capsule is loadable |
| SegmentRoundTrip.EmbeddingsReadBack | crates/l5m-core/src/segment.rs:104-127 | the vector area reads back as one row of lanes per capsule |
| SegmentRoundTrip.HashIgnoresItself | crates/l5m-core/src/compiler.rs:506-518 | the segment hash is the same whatever digest already stands in the hash field, so the stored hash verifies; what it covers is `SegmentFormat.WrittenDigest` |
| SegmentRoundTrip.LoadOutcome | crates/l5m-core/src/store.rs:513-518 | reading a checkpoint back yields the sorted live list exactly when every capsule fits the format |
| SegmentRoundTrip.AssemblyFails | crates/l5m-core/src/compiler.rs:159-176 | assembly is refused exactly for mixed embedding widths |
| SegmentRoundTrip.LastSecondMeansNoEnd | crates/l5m-core/src/segment.rs:354 | capsules valid until the last second are written as the same bytes as capsules without an end of validity |
| SegmentRoundTrip.SortedKeeps | crates/l5m-core/src/compiler.rs:124-125 | the writer's sort permutes the capsules, puts their ids in order, and neither makes nor hides a repeated id |
| SegmentFormat.AcceptedExactly | crates/l5m-core/src/segment.rs:67-142 | the loader accepts a byte string and returns a segment if and only if the bytes are a file of that segment: magic, version, section offsets, digest of all other bytes, and every record, text, list, edge and lane at its literal offset |
| SegmentFormat.RecordExactly | crates/l5m-core/src/segment.rs:269-365 | one capsule is read from a record if and only if it stands there, field by field |
| SegmentFormat.FieldsAreLittleEndian | crates/l5m-core/src/segment.rs:532-570 | the numbers read are little-endian, the signed ones in two's complement, byte by byte |
| SegmentFormat.DigestPinsFile | crates/l5m-core/src/compiler.rs:506-518 | two accepted files with the same 32 bytes at 72 are the same file, unless the hash collides on their bytes with that field zeroed |
| SegmentFormat.AlteredFileRefused | crates/l5m-core/src/segment.rs:69-73 | any other change to an accepted file is refused as a hash mismatch, short of such a collision |
| SegmentFormat.WrittenDigest | crates/l5m-core/src/compiler.rs:214-215 | whatever is assembled carries at 72 the digest of all its bytes with that field zeroed |
| SegmentFormat.WrittenFormat | crates/l5m-core/src/compiler.rs:123-224 | well-formed capsules are written as a file of them in this format, ids ascending |
| SegmentReader.FromBytes | crates/l5m-core/src/segment.rs:67-142 | on every byte string the loader returns the specified result, no index out of range and no sum overflowing; every capacity it asks for, for records, texts, edges and embedding rows alike, is at most a quarter of the input length |
| SegmentReader.LoadStringList | crates/l5m-core/src/segment.rs:469-514 | the list loop returns the specified result, with a capacity hint of at most a quarter of the input |
| SegmentReader.LoadRelations | crates/l5m-core/src/segment.rs:315-339 | the edge loop returns the specified result, with a capacity hint bounded by the input |
| SegmentReader.LoadRows | crates/l5m-core/src/segment.rs:116-127 | the row loop attaches to each capsule its own row of the vector area, asking once per row for the declared width |
| SegmentReader.ValidateSections | crates/l5m-core/src/segment.rs:226-267 | accepted offsets leave room for the record table and put the string, relation and index sections in order inside the file |
| SegmentWriter.AssembleSegment | crates/l5m-core/src/compiler.rs:123-224 | appending area by area, patching the header in place and sealing with the hash yields the specified layout |
| SegmentWriter.WriteAreas | crates/l5m-core/src/compiler.rs:127-157 | the first pass lays blobs out contiguously and hands each record references to where its own blobs stand |
| SegmentWriter.WriteStringList | crates/l5m-core/src/compiler.rs:488-499 | the list writer appends a count and length-prefixed entries and returns their position and size |
| SegmentWriter.SealBytes | crates/l5m-core/src/compiler.rs:214-215 | overwriting the hash field changes those 32 bytes and no others |
| ByteCodec.DecodeEncode | crates/l5m-core/src/compiler.rs:550-568 | little-endian fields read back as the number written |
| ByteCodec.EncodeDecode | crates/l5m-core/src/segment.rs:532-570 | a field read and written again is the same bytes |
| Durability.NoAcknowledgedWriteLost | crates/l5m-core/src/store.rs:225-289 | at every point of every run whose inserts own their edges, there is a base list a restart may be given and every one of them opens and shows the acknowledged map plus the logged operation in flight |
| Durability.ReadableBaseRecovers | crates/l5m-core/src/store.rs:225-289 | at every point of every run, a base list a restart may be given recovers the acknowledged map plus the logged operation in flight if and only if it can be read; while up, the live map is the acknowledged one |
| Durability.CheckpointReadable | crates/l5m-core/src/segment.rs:315-339 | in every reachable idle state the next checkpoint loads, and restores the acknowledged map, if and only if no live capsule has an edge of a foreign owner |
| Durability.ForeignEdgeStrandsRestart | crates/l5m-core/src/compiler.rs:94-106 | for every capsule with a foreign edge that fits the format: inserting it into an empty store and compacting acknowledges it and leaves a file no restart can read |
| Durability.OperatorSegmentsFirst | crates/l5m-server/src/main.rs:43-73 | segments listed before a checkpoint, with any log written since, recover what the log makes of the checkpoint if and only if each of their capsules that the log does not mention is in the checkpoint unchanged |
| Durability.OperatorSegmentsNoLog | crates/l5m-server/src/main.rs:43-73 | with nothing logged since, if and only if all their capsules are still live unchanged |
| Durability.OperatorSegmentUndeletes | crates/l5m-server/src/main.rs:43-73 | for every readable segment of the operator and every id it holds, when what is left fits a file: deleting the id and compacting acknowledges the delete, and a restart on the segment and the checkpoint shows the capsule again |
| Durability.StepKeeps | crates/l5m-core/src/store.rs:509-526 | the durability invariant is kept by every step: logging, applying, compacting, writing a checkpoint, adopting or refusing it, truncating or failing to, crashing, recovering |
| Durability.CheckpointRecovers | crates/l5m-core/src/store.rs:503-526 | a checkpoint holding the acknowledged map recovers it both with the log still there and with it gone |
| Durability.WrittenStands | crates/l5m-core/src/store.rs:509-518 | the bytes written from memory load as a segment if and only if every live capsule owns its edges, and then hold exactly the live map |
| Durability.ReopenedView | crates/l5m-core/src/store.rs:225-289 | whatever memory recovery builds shows the log applied to the base |
| Durability.DeletedStaysDeleted | crates/l5m-core/src/store.rs:364-373 | an id that is out stays out of what a restart owes along every run that does not insert it again, although compaction forgets the tombstones; once its delete is acknowledged it is out of the live map whenever the store is up |
| EndToEnd.QueryAfterDelete | crates/l5m-core/src/store.rs:576-616 | after an acknowledged delete and any run that does not insert the id again, no query in any mode returns it, among entries or conflicts |
| Lsm.ReplayIdempotent | crates/l5m-core/src/wal.rs:8-10 | replaying a log over its own outcome changes nothing |
| Lsm.ReplayOverCheckpoint | crates/l5m-core/src/wal.rs:8-10 | replaying a whole log over a checkpoint taken anywhere inside it gives the same map as replaying it over the base |
| Lsm.DeltaOverBase | crates/l5m-core/src/store.rs:238-289 | the buffer and tombstones a log builds, over the base, show the log applied to the base map |
| Lsm.PushUpdatesView | crates/l5m-core/src/store.rs:407-412 | a push is a map update whatever older copies and tombstones exist |
| Lsm.DeleteUpdatesView | crates/l5m-core/src/store.rs:364-373 | a delete is a map removal whichever tiers hold copies |
| Lsm.SealKeepsView | crates/l5m-core/src/store.rs:437-446 | sealing changes no live entry |
| Lsm.LiveIsView | crates/l5m-core/src/store.rs:452-476 | collecting first copies and skipping hidden ids lists the live map |
| Lsm.LiveDistinct | crates/l5m-core/src/store.rs:452-476 | the collected list repeats no id and holds no hidden one, so building a segment from it cannot fail |
| Lsm.CompactDeltaKeepsView | crates/l5m-core/src/store.rs:534-550 | merging the buffer and runs into one run changes no live entry, tombstones and base untouched |
| Lsm.CompactKeepsView | crates/l5m-core/src/store.rs:491-501 | full compaction changes no live entry though it drops every tombstone |
| Lsm.InsertUpdatesView | crates/l5m-core/src/store.rs:306-318 | an insert with its sealing and automatic compaction is a map update |
| Lsm.InsertBoundsTiers | crates/l5m-core/src/store.rs:306-318 | it keeps the tiers well formed, leaves the buffer below its threshold and bounds the number of runs |
| Lsm.InsertSealsWhenFull | crates/l5m-core/src/store.rs:306-318 | an insert only changes the buffer while there is room for one more id; the one that fills it makes it the newest run, and compacts the runs into one when their number is reached |
| Lsm.EpochsAdvance | crates/l5m-core/src/store.rs:437-446 | runs carry rising epochs above those of the base, kept by every step, so no epoch is given twice before the counter wraps |
| Lsm.BatchUpdatesAll | crates/l5m-core/src/store.rs:327-346 | a batch is the same map updates in order, with the buffer bounded throughout |
| Store.ReplayLog | crates/l5m-core/src/store.rs:238-277 | the positional single pass, orphaned slots included, fails exactly when an entry does not decode and otherwise leaves distinct ids, the same buffer as a map and the same tombstones as operation-by-operation replay |
| Store.CanonicalView | crates/l5m-core/src/store.rs:268-277 | the slots their id still points at hold each live id once, with its latest value |
| Store.OpenDurable | crates/l5m-core/src/store.rs:225-289 | recovery succeeds exactly when base files, log lines and entries can be read, and shows the log applied to the base |
| Store.OpenSegments | crates/l5m-core/src/store.rs:156-187 | opening reads every base file, or fails when one of them cannot be read |
| Store.MemoryStore.constructor | crates/l5m-core/src/store.rs:156-203 | a store opened on segments shows just these, its next epoch after the highest of theirs |
| Store.MemoryStore.Insert | crates/l5m-core/src/store.rs:306-318 | a logged insert updates the live map at that id and nothing else; a failed append leaves the store as it was |
| Store.MemoryStore.InsertMany | crates/l5m-core/src/store.rs:327-346 | exactly the capsules before a failed append are logged and applied, all of them when none fails |
| Store.MemoryStore.Delete | crates/l5m-core/src/store.rs:364-373 | a logged delete removes the id from the live map; a failed append leaves the store as it was |
| Store.MemoryStore.SealActiveBuffer | crates/l5m-core/src/store.rs:437-446 | the buffer becomes the newest run, stamped with the next epoch, and never fails to |
| Store.MemoryStore.RebuildActiveSegment | crates/l5m-core/src/store.rs:426-433 | the queryable segment of the buffer is brought up to date, and never fails to |
| Store.MemoryStore.CollectLive | crates/l5m-core/src/store.rs:452-476 | the loops list first copies in recency order, tombstoned ids skipped |
| Store.MemoryStore.CompactDelta | crates/l5m-core/src/store.rs:534-550 | minor compaction takes the specified step and keeps the queryable segment current |
| Store.MemoryStore.MaybeAutoCompact | crates/l5m-core/src/store.rs:554-561 | compaction runs exactly when the number of runs has reached its limit |
| Store.MemoryStore.Compact | crates/l5m-core/src/store.rs:491-501 | every tier becomes one base segment showing the same live map |
| Store.MemoryStore.CompactTo | crates/l5m-core/src/store.rs:509-526 | the checkpoint on disk is the assembled live list; memory changes only after it has been read back, the log is emptied only after that, any earlier failure leaves both alone, and success means the emptied log was reopened too |
| Store.WriteCheckpoint | crates/l5m-core/src/store.rs:509-518 | a checkpoint is written exactly when widths agree and the write succeeds, and reads back as the sorted list exactly when every capsule fits the format |
| WalFile.OpsSnoc | crates/l5m-core/src/wal.rs:49-56 | an appended entry adds exactly that operation to what a replay reads |
| WalFile.OpsMeans | crates/l5m-core/src/wal.rs:59-74 | a log reads back exactly when no line is garbled, in as many operations as it has entries |
| WalFile.Wal.Append | crates/l5m-core/src/wal.rs:49-56 | an append adds one line, or nothing when the write fails |
| WalFile.Wal.Replay | crates/l5m-core/src/wal.rs:59-74 | the replay loop reads the operations in order, skips blank lines and fails on an unparsable one |
| WalFile.Wal.Truncate | crates/l5m-core/src/wal.rs:76-88 | the log is empty exactly when the truncating open succeeded, and the call succeeds exactly when the log could be reopened after it |
| WalCodec.LogRoundTrip | crates/l5m-core/src/compiler.rs:238-354 | a logged capsule replays as itself exactly when it is canonical and its embedding lanes are finite, and is refused when a lane is not |
| WalCodec.BuiltIsCanonical | crates/l5m-core/src/compiler.rs:310-354 | whatever is built from raw input is in that form |
| WalCodec.BuiltMeans | crates/l5m-core/src/compiler.rs:310-354 | every field of an entry is taken over or parsed; terms are those found in the values given, by default in claim or evidence, entities by default the anchors; digests and fingerprints are over the texts named |
| WalCodec.BuiltWhen | crates/l5m-core/src/compiler.rs:310-373 | building fails exactly when a number does not parse or a lane is null |
| WalCodec.BuiltSurvivesLog | crates/l5m-core/src/compiler.rs:238-354 | a capsule built from an entry survives being logged and replayed when its lanes are finite, and is refused on replay otherwise |
| WalCodec.LanesRoundTrip | crates/l5m-core/src/compiler.rs:262-263 | lanes come back from their log form exactly when all are finite; another becomes a null |
| WalCodec.FiniteLaneMeans | crates/l5m-core/src/compiler.rs:262-263 | a lane is finite exactly when, sign aside, its pattern is below that of infinity |
| Store.NullLaneStopsOpening | crates/l5m-core/src/store.rs:243-245 | a log holding an insert with a lane that is not finite does not decode, whatever else it holds |
| WalCodec.HexRoundTrip | crates/l5m-core/src/compiler.rs:529-540 | hexadecimal text of any 128-bit mask parses back to it |
| WalCodec.DecimalRoundTrip | crates/l5m-core/src/compiler.rs:529-540 | decimal text of any 128-bit id parses back to it |
| WalCodec.NumberExactly | crates/l5m-core/src/compiler.rs:529-540 | a text is a number exactly when, one leading plus aside, it is digits of a positional value below 2^128 |
| WalCodec.DigitMeans | crates/l5m-core/src/compiler.rs:529-540 | the digits by their characters, letters of either case |
| WalCodec.TrimSpaceMeans | crates/l5m-core/src/compiler.rs:529-530 | blanks are trimmed at both ends, all of them and nothing else |
| WalCodec.EdgesRoundTrip | crates/l5m-core/src/compiler.rs:365-373 | relation edges survive their raw form |
| Terms.ExtractOfTerm | crates/l5m-core/src/probe.rs:60-84 | extracting terms from a term gives that term and no other |
| Terms.ExtractGivesTerms | crates/l5m-core/src/probe.rs:60-84 | extraction yields a sorted duplicate-free list of trimmed lower-case terms of at least three bytes |
| Terms.Extract | crates/l5m-core/src/probe.rs:60-76 | the scanning loop finds exactly the maximal runs of token bytes, lower-cased, stripped of joiners at both ends, three bytes long at least |
| Terms.ExtractedExactly | crates/l5m-core/src/probe.rs:60-84 | the same, stated by indexes into the text |
| Terms.ByteClasses | crates/l5m-core/src/probe.rs:65-82 | the joiners, token bytes and letters by their characters |
| Terms.LexMeans | crates/l5m-core/src/compiler.rs:525 | terms are ordered by bytes, a prefix first |
| Terms.NormalizeFixpoint | crates/l5m-core/src/compiler.rs:520-527 | a list is left alone by normalisation exactly when it is a sorted duplicate-free list of terms |
| Terms.NormalizeIdempotent | crates/l5m-core/src/compiler.rs:520-527 | normalising twice is normalising once |
| Terms.NormalizeTerms | crates/l5m-core/src/compiler.rs:520-527 | the flat-map loop, sort and dedup keep exactly the terms found in some value |
| BitSets.CountIsCardinality | crates/l5m-core/src/bitset.rs:54-59 | with no bit beyond the size, summed population counts are the number of members |
| BitSets.BitSet.Full | crates/l5m-core/src/bitset.rs:15-22 | a full set holds exactly the indexes below its size |
| BitSets.BitSet.Set | crates/l5m-core/src/bitset.rs:24-27 | sets one member and no other |
| BitSets.BitSet.Clear | crates/l5m-core/src/bitset.rs:29-32 | removes one member and no other |
| BitSets.BitSet.Get | crates/l5m-core/src/bitset.rs:34-37 | tells membership |
| BitSets.BitSet.AndAssign | crates/l5m-core/src/bitset.rs:39-44 | intersection in place |
| BitSets.BitSet.OrAssign | crates/l5m-core/src/bitset.rs:46-52 | union in place, keeping the no-bit-beyond-size invariant |
| BitSets.BitSet.CountOnes | crates/l5m-core/src/bitset.rs:54-59 | returns the number of members |
| BitSets.BitSet.Ones | crates/l5m-core/src/bitset.rs:61-67 | lists exactly the members, strictly ascending |
| BitSets.BitSetOnes.Next | crates/l5m-core/src/bitset.rs:93-111 | yields the smallest remaining member and removes just that one; ends exactly when none remains |
| Words.ClearLowest | crates/l5m-core/src/bitset.rs:99-101 | clearing with x & (x - 1) removes the bit trailing_zeros names and keeps every other |
| Lsh.NearSharesBand | crates/l5m-core/src/index.rs:22-64 | fingerprints at distance 15 or less share one of the 16 bands |
| Lsh.SixteenCanMiss | crates/l5m-core/src/index.rs:22-64 | two fingerprints at distance 16 that share none, so the bound is exact |
| Lsh.BucketIsFirstBand | crates/l5m-core/src/index.rs:269-271 | the semantic bucket is the first band key |
| Lsh.BandKeysAgree | crates/l5m-core/src/index.rs:22-64 | two fingerprints agree on a band key exactly when no bit of its sixteen positions differs |
| Lsh.Hamming | crates/l5m-core/src/scoring.rs:3-8 | the word loop returns the number of bit positions at which the two fingerprints differ |
| Lsh.DistanceCountsBits | crates/l5m-core/src/scoring.rs:3-8 | the sum of population counts is the number of the 256 positions that differ |
| Index.Build | crates/l5m-core/src/index.rs:186-261 | the one-pass construction of all postings, flags and tables equals its specification |
| Index.TenantHits | crates/l5m-core/src/index.rs:186-261 | tenant postings list exactly the capsules of the tenant |
| Index.TermHits | crates/l5m-core/src/index.rs:186-261 | anchor and entity postings list exactly the capsules carrying a term with that hash |
| Index.BucketHits | crates/l5m-core/src/index.rs:186-261 | bucket postings list exactly the capsules of the bucket |
| Index.SupersederHits | crates/l5m-core/src/index.rs:186-261 | supersession postings list exactly the capsules with a superseding edge to the target |
| Index.FlagsMeanSuperseded | crates/l5m-core/src/index.rs:186-261 | a supersede flag is set exactly when some capsule of the segment supersedes that one |
| Index.BandHits | crates/l5m-core/src/index.rs:39-64 | a band table lists exactly the capsules with that band key |
| Index.SignatureHits | crates/l5m-core/src/index.rs:85-140 | a signature table lists exactly the capsules of the indexed width with that signature band |
| Gates.OverlapIsCommonBit | crates/l5m-core/src/retrieve.rs:447-458 | the mask gate passes exactly when the two masks have a bit in common |
| Gates.GatesMean | crates/l5m-core/src/retrieve.rs:447-458 | the authorization gates pass exactly for the caller's tenant, a common context bit, a common policy bit and enough trust; all gates, when the time asked about is also within validity |
| Gates.EligibleMeans | crates/l5m-core/src/retrieve.rs:77-115 | eligible is exactly to pass the gates, written out by bits, and not to be the target of a superseding edge of a capsule that passes them |
| CandidateSearch.GateScan | crates/l5m-core/src/retrieve.rs:77-115 | the bit set built from postings, columnar rows and flags is exactly the capsules that pass all gates, written out by bits, and are superseded by none that does |
| CandidateSearch.SupersededNow | crates/l5m-core/src/retrieve.rs:371-387 | tells whether a gate-passing capsule of the segment supersedes this one |
| CandidateSearch.FindLookup | crates/l5m-core/src/retrieve.rs:117-141 | the lookup set is exactly the gated capsules matching a probe term |
| CandidateSearch.MatchMeans | crates/l5m-core/src/retrieve.rs:117-141 | to match is to share an entity with the probe's entities or an anchor with its anchors, as far as the first eight bytes of a digest tell terms apart |
| CandidateSearch.ExactSearch | crates/l5m-core/src/retrieve.rs:256-302 | the result is the true top of the exact pool under (non-lookup, distance, ordinal), ascending and duplicate-free, at most the cap |
| CandidateSearch.NearMeans | crates/l5m-core/src/retrieve.rs:256-302 | near is to agree on the first sixteen bits, or to differ in no more bits than the threshold |
| CandidateSearch.ExactTopMeans | crates/l5m-core/src/retrieve.rs:256-302 | the pool is the gated capsules that match or are near, all of them when there are none; what the cap drops stands behind all it keeps: matches first, then fewer differing bits, then the ordinal |
| CandidateSearch.LookupSurvives | crates/l5m-core/src/retrieve.rs:256-302 | all lookup hits survive the cap whenever they fit it |
| CandidateSearch.ExactPoolEmpty | crates/l5m-core/src/retrieve.rs:256-302 | the exact pool lies inside the gated set and is empty only with it |
| Selection.SelectIsTopK | crates/l5m-core/src/retrieve.rs:280-302 | sort, truncate and re-sort keep nothing larger than anything dropped |
| Selection.PreferredSurvive | crates/l5m-core/src/retrieve.rs:280-302 | elements that precede all others survive whenever they fit the cap |
| BandedSearch.AnnSearch | crates/l5m-core/src/retrieve.rs:307-369 | the approximate search returns the true top of its pool, duplicate-free, gated and within the cap |
| BandedSearch.BandedMeans | crates/l5m-core/src/retrieve.rs:307-369 | banded is to have no differing bit on one of the sixteen bands of sixteen positions |
| BandedSearch.DenseMeans | crates/l5m-core/src/index.rs:71-140 | a dense hit has an embedding of the probe's and the index's width whose signature agrees with the probe's on one of four sixteen-bit slices |
| BandedSearch.FirstDimMeans | crates/l5m-core/src/index.rs:85-140 | the width of the index is that of the first capsule with an embedding |
| BandedSearch.AnnTopMeans | crates/l5m-core/src/retrieve.rs:307-369 | what the cap drops stands behind all it keeps: dense hits first, then matches, then the rest, each by fewer differing bits, then the ordinal |
| BandedSearch.AnnRecall | crates/l5m-core/src/retrieve.rs:307-369 | the uncapped pool holds every gated capsule within distance 15, every lookup hit and the whole semantic bucket |
| BandedSearch.DenseSurvives | crates/l5m-core/src/retrieve.rs:307-369 | embedding hits survive the cap whenever they fit it |
| Fusion.Fuse | crates/l5m-core/src/retrieve.rs:181-213 | each candidate's fused score is 1/(k + 1 + number ahead of it), added up over the two orders; ahead are those with a higher score and earlier ones with the same |
| Fusion.FusedByCounting | crates/l5m-core/src/retrieve.rs:181-213 | the rank a sort gives a candidate is the number of candidates ahead of it, so the fused score has that closed form |
| Fusion.FusionRespectsAgreement | crates/l5m-core/src/retrieve.rs:181-213 | a candidate ahead in both orders gets a strictly higher fused score, for every k of 0 or more |
| Fusion.DominanceSurvives | crates/l5m-core/src/retrieve.rs:181-213 | so does one with both scores strictly higher |
| Fusion.RankingPermutes | crates/l5m-core/src/retrieve.rs:187-202 | each order ranks every candidate once |
| Retrieve.Candidates | crates/l5m-core/src/retrieve.rs:147-158 | the ordinals that reach scoring are the true top of the banded pool when the eligible set is large and that pool not empty, of the exact pool otherwise; distinct, within the cap, empty only when nothing is eligible |
| Retrieve.Rerank | crates/l5m-core/src/retrieve.rs:181-213 | fusion changes scores only; the pool stays as it was |
| Retrieve.BudgetedIsSubsequence | crates/l5m-core/src/retrieve.rs:223-232 | the budget keeps candidates in order and drops all only when there are none |
| Retrieve.BudgetKept | crates/l5m-core/src/retrieve.rs:223-232 | the tokens returned stay within the budget unless a single capsule alone exceeds it |
| Retrieve.FillBudget | crates/l5m-core/src/retrieve.rs:223-232 | the loop keeps the first candidate, and a later one exactly when its tokens and those kept before it are within the budget |
| Retrieve.BudgetDecides | crates/l5m-core/src/retrieve.rs:223-232 | stated by positions: what is kept after the first fits the budget with all kept before it, and what is left out does not |
| Retrieve.TokensCountWords | crates/l5m-core/src/retrieve.rs:475-477 | the tokens of a capsule are the words of its claim and of its evidence, each counted as one at least |
| Retrieve.ExpandRelations | crates/l5m-core/src/retrieve.rs:389-445 | exactly the capsules that includable edges of the selected ones point at, each once, unscored, with all its notes in order; all pass the authorization gates, and none are shown unless asked for |
| Retrieve.ExpandedMeans | crates/l5m-core/src/retrieve.rs:389-445 | one unscored entry for exactly the capsules a selected one leads to, by a supporting edge to one that may be seen or a contradicting or superseding one to one that may be known, when asked for; with a note for exactly the edges that lead there |
| Retrieve.Retrieve | crates/l5m-core/src/retrieve.rs:70-253 | from the chosen candidates the best by score, trust and time of verification up to the limit, of these the first and whatever still fits the budget; each capsule once, all eligible, empty only when nothing is eligible; conflicts are the expansion of what is returned |
| Completeness.RoomyIsComplete | crates/l5m-core/src/retrieve.rs:143-253 | when what the search, exact or banded, finds fits the caps and the token budget, a segment's answer holds exactly that |
| Merging.MergeFrames | crates/l5m-core/src/store.rs:701-739 | one entry per id, the latest listed, the best ones up to the limit; conflicts concatenated, epoch the highest |
| Merging.LastHolderWins | crates/l5m-core/src/store.rs:710-731 | the entry kept for an id is the one of the last frame holding it |
| Merging.TopIsBest | crates/l5m-core/src/store.rs:736-738 | sort and truncate keep nothing that anything dropped should precede |
| Merging.AggregateFrames | crates/l5m-core/src/store.rs:741-765 | one entry per source, whatever order the hash map yields: its highest-scoring one, rewarded for support; none missing unless the limit cut it off |
| Merging.AggregatedMeans | crates/l5m-core/src/store.rs:741-765 | each entry is the first of the highest-scoring ones of its source, raised by three hundredths for each other entry of that source; no source is missing while the limit is not used up |
| Merging.AggregatedShows | crates/l5m-core/src/store.rs:741-765 | aggregation changes scores only, never lowers one, and keeps ids distinct |
| Merging.BestIsHighest | crates/l5m-core/src/store.rs:741-757 | the entry kept for a source exists exactly when the source does and has its highest score |
| Query.Query | crates/l5m-core/src/store.rs:589-616 | in all four modes: distinct ids in score order within the limit, no tombstoned id among entries or conflicts, every entry showing a capsule of some tier that passes all gates and every conflict one that is authorized, every id shown live; in the merging modes every entry eligible in its own segment and the latest of the segments' answers, all of which are there when they fit the limit; without tombstones empty only when no tier can answer; the entries are those the mode's own standard finds, hidden ids dropped and every other id kept in its highest-scoring entry; the gates, the fields shown and the order are written out in its contract |
| Query.RetrieveL5m | crates/l5m-core/src/store.rs:618-624 | the merge of one answer per segment, each as retrieval guarantees it |
| Query.RetrieveParentAggregate | crates/l5m-core/src/store.rs:626-632 | the merge of a search up to four times wider, one entry per source |
| Query.RetrieveFusion | crates/l5m-core/src/store.rs:634-682 | the best of all gate-passing capsules of all tiers under the mode's score |
| Query.RetrieveMode | crates/l5m-core/src/store.rs:589-604 | each mode by its own standard: the best latest entries of the segments' answers, eligible in their segments; of these one best entry per source, rewarded for support; the best of all gate-passing capsules under the hybrid score; or of these under the parent score one best entry per source |
| Query.ApplyTombstonesAndDedup | crates/l5m-core/src/store.rs:576-587 | every visible id keeps one entry, its highest-scoring; hidden ids go from entries and conflicts |
| Versions.ShownVersion | crates/l5m-core/src/store.rs:710-731 | the version shown for an id is that of the last segment whose own answer holds the id, and it is eligible there |
| Versions.VersionShown | crates/l5m-core/src/store.rs:710-731 | with room for all answers, an id is shown exactly when some segment's search finds a copy, and in the version of the last such segment |
| Versions.NewestShownIffEligible | crates/l5m-core/src/store.rs:710-731 | over any segments, with room for all answers and the id's eligible copies findable: the newest copy is shown exactly when it is eligible in its own segment, otherwise the last eligible older one is, and nothing is shown exactly when no copy is eligible |
| Versions.NewestIsLive | crates/l5m-core/src/store.rs:565-574 | unless two base segments share an id, the newest copy a query looks at is the live version |
| EndToEnd.QueryAfterDistrust | crates/l5m-core/src/store.rs:710-731 | a store and a query whose answer shows a superseded copy of an id while the live map holds another |
| Versions.SoleVersionIsLive | crates/l5m-core/src/store.rs:710-731 | an id with one version in the tiers is shown in its live version |
| Versions.CompactedIsFresh | crates/l5m-core/src/store.rs:491-501 | after full compaction every answer shows the live map |
| Audit.VerifyChain | crates/l5m-core/src/audit.rs:154-178 | a log is accepted exactly when it is readable, every record names its predecessor's hash and every hash recomputes; the count is the number of records |
| Audit.RunVerifies | crates/l5m-core/src/audit.rs:105-130 | any records over any reopenings verify with exactly their number |
| Audit.AuditLog.Record | crates/l5m-core/src/audit.rs:115-130 | one linked record is appended and the chain moves on to it; it names the caller's tenant, masks, trust floor and time, and the id, source and trust of every capsule returned; a failed write changes nothing |
| Audit.Open | crates/l5m-core/src/audit.rs:108-112 | opening fails exactly on an unreadable line and continues the chain of what is there |
| Audit.LastRecordHash | crates/l5m-core/src/audit.rs:135-149 | the last record's hash, or the zero hash of an empty log |
| Audit.ComputeHash | crates/l5m-core/src/audit.rs:78-96 | the hasher is fed every field but the record's own hash, in the specified order |
| Audit.HashedAt | crates/l5m-core/src/audit.rs:78-96 | where each field stands in the bytes hashed |
| Audit.HexDigits | crates/l5m-core/src/audit.rs:95 | a digest is printed as two lower-case digits per byte, the high half first |
| Audit.LinkedPrefix | crates/l5m-core/src/audit.rs:154-178 | acceptance is prefix-closed |
| Audit.LastHashPinsLog | crates/l5m-core/src/audit.rs:1-11 | without a collision among the records at hand, two accepted logs with the same last hash have equal length and hashed the same bytes record by record |
| Audit.LastHashPinsOrder | crates/l5m-core/src/audit.rs:1-11 | without a collision, an accepted log made of records of another ends in the same hash if and only if it is the same log: nothing dropped, repeated or reordered |
| Audit.HashPinsFields | crates/l5m-core/src/audit.rs:76-96 | records hashed from the same bytes agree in every field exactly when their field lengths agree |
| Audit.BoundaryNotHashed | crates/l5m-core/src/audit.rs:76-96 | a byte moved from the policy text to the end of the context text leaves the hash unchanged |
| Audit.ShiftGoesUnnoticed | crates/l5m-core/src/audit.rs:154-178 | an accepted log stays accepted, with the same count and last hash, when one record has a byte moved that way |
| RateLimit.RateLimiter.Allow | crates/l5m-server/src/ratelimit.rs:34-50 | a request is granted exactly when a whole token is there after refilling, costs one, touches no other tenant and keeps tokens between zero and the burst |
| RateLimit.TenantBounded | crates/l5m-server/src/ratelimit.rs:1-7 | over any stretch of calls in clock order, a tenant is granted at most burst + rate * length, whatever other tenants do |
| RateLimit.WindowBound | crates/l5m-server/src/ratelimit.rs:34-50 | the same for any window of one tenant's requests |
| RateLimit.BoundIffOrdered | crates/l5m-server/src/ratelimit.rs:34-50 | the advertised bound holds for every limiter and every number of requests if and only if the timestamps never step back |
| RateLimit.GrantedBounded | crates/l5m-server/src/ratelimit.rs:34-50 | for any timestamps at all, the bound with the clock's forward movement in place of the window length |
| RateLimit.ClimbAtLeast | crates/l5m-server/src/ratelimit.rs:34-50 | forward movement is the window length exactly when the clock never steps back |
| RateLimit.BackwardClockGrantsMore | crates/l5m-server/src/ratelimit.rs:35-36 | a clock that steps back grants three requests where burst + rate * window is two |
| RateLimit.SpacedRequestsGranted | crates/l5m-server/src/ratelimit.rs:34-50 | a tenant that leaves time for a token between requests is never refused |
| RateLimit.BurstGranted | crates/l5m-server/src/ratelimit.rs:34-50 | as many requests as the burst has whole tokens are never refused, whatever the timestamps |
| RateLimit.TenantBurstGranted | crates/l5m-server/src/ratelimit.rs:1-7 | the same for a tenant's calls among any calls of others |
| RateLimit.TenantsIndependent | crates/l5m-server/src/ratelimit.rs:1-7 | a tenant's bucket is the one its own calls alone would leave |
| RateLimit.AfterWithin | crates/l5m-server/src/ratelimit.rs:34-50 | tokens stay between zero and the burst after every request |
| Metering.Metrics.WithTenant | crates/l5m-core/src/metrics.rs:103-129 | an event is counted once, in the counter of its kind, under the tenant's own key or the overflow key; every other key stays as it was |
| Metering.Bounded | crates/l5m-core/src/metrics.rs:10-17 | the tenant map never exceeds the cap and the overflow key |
| Metering.KeyIsStable | crates/l5m-core/src/metrics.rs:103-111 | all events of a tenant land under one key for the whole run |
| Metering.KeyConserved | crates/l5m-core/src/metrics.rs:103-129 | each key's counters are exactly the events of the tenants billed under it |
| Metering.CountersCount | crates/l5m-core/src/metrics.rs:103-129 | each counter under a key is the number of events of its kind billed there |
| Metering.OwnKeys | crates/l5m-core/src/metrics.rs:10-17 | up to ten thousand tenants, each is billed under its own key and there is no other |
| Metering.TotalConserved | crates/l5m-core/src/metrics.rs:103-129 | summed over all keys every counter equals the recorded events |
| Metering.Metrics.RecordQuery | crates/l5m-core/src/metrics.rs:73-85 | the histogram again holds exactly the recorded latencies, and the totals grow by this query |
| Metering.RowsRendered | crates/l5m-core/src/metrics.rs:185-191 | each cumulative row counts the queries within its bound, except the last, which counts all and is right exactly when none was slower |
| Metering.SlowQueryMiscounted | crates/l5m-core/src/metrics.rs:185-191 | one query of a second and a nanosecond is counted in the row labelled one second |

## Left out

- Files, memory maps, manifests, fsync and directories: an operation succeeds or fails as a parameter says, and a crash falls between operations, never inside one; torn log lines and half-written checkpoints are outside the protocol.
- Merging.MergeFrames: of the merged coverage report only the candidate count is stated; the other counters, sums over the frames, are not modelled.
- JSON text: a log entry is the raw field values, so lexing and escaping are not modelled; embedding lanes are 32-bit patterns, of which the log form knows whether they are finite.
- Floating point: scores and tokens are exact reals, so NaN and rounding do not appear, and the scoring formulas (`score_capsule`, cosine, the lexical and temporal weights) are arbitrary functions.
- The hash, the UTF-8 validator, the text fingerprints and the embedding signature are arbitrary functions.
- White space and letters beyond ASCII in number texts, token counts and tokens: strings are bytes, and bytes outside ASCII count as neither space nor letter.
- Terms.ExtractGivesTerms: lower-casing is that of ASCII letters, because strings are bytes.
- Sizes: `usize` has 64 bits, and a byte string is shorter than 2^63, as Rust guarantees.
- Metering.Bounded: counters are unbounded numbers, so the wrap of a 64-bit counter after 2^64 events is not modelled.
- Epochs wrap as in a release build.
- Durability.NoAcknowledgedWriteLost: the capsules inserted are in the form building leaves them in, have finite lanes and fit the record format; `WalCodec.LogRoundTrip` and `SegmentRoundTrip.RoundTripExactly` say exactly which others would come back changed or not at all. That inserts own their edges is the condition `Durability.CheckpointReadable` shows to be needed. A checkpoint is below 2^63 bytes.
- Index.TenantHits: a segment holds at most 2^32 capsules, here and in every query result, because the tables keep ordinals in 32 bits; `Index.Build` models the wrap beyond that.
- Fusion.Fuse: the fusion constant k is not negative.
- SegmentRoundTrip.RoundTripExactly: a capsule valid until the largest representable second does not count as fitting the format, because the format stores "no end" as that number; edges of a foreign owner can be written but are refused on load, which the statement includes.
- SegmentReader.ValidateSections: three range checks of the source that its earlier checks make redundant are folded into them.
- Several base segments sharing an id: compaction keeps the first listed while the merge of answers keeps the last; the live map follows compaction.
- Store.MemoryStore.InsertMany: after a failed append the queryable segment of the buffer lags behind the buffer, so a query may miss the batch, or show older versions of it, until the next write; the ids it shows are live and the map itself is right.
- Query.Query: the freshest version of an id is not promised before compaction, supersession is checked only within one segment and only in the first two modes, and a tombstoned entry can use up a place below the limit, as in the code; the request-to-probe conversion, timings, config hash, segment metadata and coverage counters other than the candidate count are not modelled.
- Audit.RunVerifies: two processes appending to one file at once are not modelled.
- RateLimit.RateLimiter.Allow: the mutex is modelled by the order of calls; the timestamp of a call is a parameter.
- Metering.Metrics.RecordQuery: error, insert and delete totals and the text of the exposition format are left out as easy.
- Sealed (encrypted) segments, tokens and principals, the HTTP and MCP servers, the command line, the benchmarks and the language clients are not part of this model.
