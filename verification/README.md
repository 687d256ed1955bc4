# A verified model of libxmtp's archive codec, caching verifier and stream machinery

This project models the parts of libxmtp that carry state from step to step, and proves what they
promise. `dafny verify dfyconfig.toml` checks all of it.

**Archives** (`crates/xmtp_archive`). `ExportStream.dfy` pages tables and flattens them into one
stream of elements; `Orphans.dfy` asks whether every message in it follows its group, and `Expiry.dfy` what
becomes of messages when others expire between two pages. `Exporter.dfy` is the pull-driven exporter: it seals each element under a
counter nonce, prefixes its length, compresses, and hands the bytes out through caller buffers of
any size. `Importer.dfy` inverts it, and `Replay.dfy` replays an importer's polls as a function of the
bytes and of the decompressor's schedule, stalls and faults included; `Truncation.dfy` is about streams that
stop early. `Archive.dfy` holds the byte format and the two specification
functions, `Frames` (what an exporter writes) and `Import` (what an importer makes of any bytes),
and the legacy nonce rule; `Nonce.dfy` the 96-bit counter; `RoundTrip.dfy` the trip from database
records to an archive and back. The foreign libraries are parameters with a stated law:
AES-256-GCM under one key is an ideal AEAD (sections 5.1 and 5.2 of RFC 5116, and no ciphertext
opens under a second nonce); zstd is any streaming codec whose sink only grows and whose closed
output inflates to what was written, wherever it was flushed; prost is any codec that decodes what
it encoded. `TagCipherIsIdeal`, `CopyingCodecIsLossless` and `PlainWireIsFaithful` (in `PlainWire.dfy`)
show that these laws can be met.

**Caching signature verifier** (`apps/mls_validation_service`). `CacheKey.dfy` is the byte encoding
behind the key, `LruCache.dfy` the least-recently-used cache, `CachedVerifier.dfy` the verifier, first with
one caller at a time and then with any number of callers whose lookup, inner call and store
interleave freely. The digest is a parameter, assumed free of collisions among the requests made.

**Stream handles** (`crates/xmtp_common/src/stream_handles.rs`, `bindings/node/src/streams.rs`).
`NativeCloser.dfy` and `WasmHandle.dfy` are transition systems; their theorems hold for every legal
run. In the native one the readiness signal is part of the state: the task sends it, the first
`wait_for_ready` takes its receiver, and both the lock and the receiver can go astray with a dropped call.

**Retries and ticks** (`crates/xmtp_common/src/retry.rs`, `time.rs`). `Retry.dfy` and `Jitter.dfy`, in
nanoseconds. Clocks and random draws are parameters.

**Batched requests and reconnecting** (`crates/xmtp_api`, `apps/keepalive-probe`). `Batching.dfy` shows
for which servers batching cannot be noticed, and `Reconnect.dfy` is the subscription loop of the probe.

Bytes, time and optional values are in `Bytes.dfy`, `Time.dfy` and `Wrappers.dfy`.

## Where the code falls short of its description

- A record streamer takes a page that yields no element for the end of its table, but the group
  provider skips records it cannot read. A whole page of unreadable groups therefore hides every group
  after it. `ExportedWholeIff` gives the exact condition, `LostBehindSkippedPage` an instance. The
  comment in the same function that an error ends the stream is not what happens: the page is asked for again.
- A `Pending` in the importer after a length prefix was drained forgets the length, as
  `element_len` is a local variable. `Run` replays any schedule, and the frames come back as written
  if and only if the replay loses no prefix (`FramesComeBackIff`, `PlaintextsComeBackIff`). A read of just
  the prefix followed by a stall is a schedule that does (`StallAfterPrefix`); a stall at the beginning of a
  poll never does (`StallsFirst`).
- Frames that stop early: of any cut, exactly the frames that are there whole are delivered; if nothing or a
  whole prefix is left over the end looks clean, and otherwise `poll_next` never returns (`CutImport`;
  `CutBodySpins` is a cut inside a body, `LonePrefixLooksEnded` one right after a prefix). A clean end hides
  missing frames if and only if the cut is at the beginning of a frame or right after a prefix
  (`CleanEndMissesIff`). `CutArchiveReads` says the same of a whole archive.
- Messages can be exported without their group. No message is if and only if every group that an exported
  message belongs to is exported (`NoOrphansIff`); a page of skipped groups breaks this (`LostGroupOrphans`),
  and so does a time window, as it is applied to the creation of groups but to the sending of messages
  (`WindowOrphans`).
- Messages are paged by offset among those alive at each query, so one that expires between two pages can
  push a live one below the cursor. A message alive throughout is exported if and only if that never happens
  to it (`SurvivorExportedIff`, `LostBehindExpiry`).
- Ciphertexts and cache key fields of 2^32 bytes or more wrap their length prefixes:
  `FramesImportIff`, `UniquelyDecodableIff` and `LongFieldsCollide`.
- `total_wait_max` is described as an upper limit on the time to wait for all retries. It is one for every
  run if and only if the waits of all retries with the longest jitter add up to no more than it
  (`LimitHoldsIff`); the defaults meet this (`DefaultKeepsLimit`), other settings need not
  (`ShortLimitIsPassed`). The excess is at most one wait and one jitter (`SleepsBounded`).
- `end_and_wait` does not end a stream while a `wait_for_ready` holds the lock on a task that is neither ready,
  nor ended, nor aborted. Some order of the steps that need neither the task nor a caller answers it if and
  only if the closer is not so blocked (`AnsweredIff`, `BlockedUntil`, `WaitForReadyBlocks`); every order does if
  and only if, besides, no queued `wait_for_ready` could block it (`AlwaysAnsweredIff`, `WaitForReadyContends`).
  A `wait_for_ready` that is dropped takes the receiver with it, and the next one returns before readiness
  (`DroppedWaitHidesReadiness`); `ReadySoundIff` says exactly when returns can be relied on.
- An `end_and_wait` that is dropped while it joins a running task lets later ones return before the task
  has ended; `WaitSoundIff` is the exact condition.
- A test comment places yield n of a jittered interval at the start plus n periods plus its own
  jitter. That holds for every run exactly when the jitter is at most one period (`OnScheduleIff`).

## Model

| member | source | states |
|---|---|---|
| `Nonce.NonceBijection` | crates/xmtp_archive/src/util.rs:10-31 | Values below 2^96 and twelve little-endian bytes correspond one to one. |
| `Nonce.NonceDigits` | crates/xmtp_archive/src/util.rs:11-31 | Byte i of a nonce is the digit of weight 256^i of its value. |
| `Nonce.StepInPlace` | crates/xmtp_archive/src/util.rs:11-31 | Going through a zero-extended u128 with wrap-around steps the twelve bytes in place by exactly one modulo 2^96. |
| `Nonce.Increment` | crates/xmtp_archive/src/util.rs:11-20 | The nonce becomes its successor modulo 2^96. |
| `Nonce.Decrement` | crates/xmtp_archive/src/util.rs:22-31 | The nonce becomes its predecessor modulo 2^96. |
| `Nonce.IncrementMany` | crates/xmtp_archive/src/util.rs:11-20 | k increments add k modulo 2^96. |
| `Nonce.AdvanceAdds` | crates/xmtp_archive/src/util.rs:11-31 | Steps in either direction add up. |
| `Nonce.StepsUndo` | crates/xmtp_archive/src/util.rs:11-31 | Increment and decrement undo each other everywhere, both wrap points included. |
| `Nonce.AdvanceCollides` | crates/xmtp_archive/src/exporter.rs:202-208 | Two offsets give the same nonce exactly when 2^96 divides their difference, so 2^96 consecutive ones never repeat. |
| `Archive.MetadataRoundTrip` | crates/xmtp_archive/src/lib.rs:44-79 | Selections, times and version survive from options to wire form and back. |
| `Archive.WireMetadata` | crates/xmtp_archive/src/lib.rs:63-79 | The wire form carries each time under its own name, and selections under the numbers 0 to 3 of their enum. |
| `Archive.SelectionsRead` | crates/xmtp_archive/src/lib.rs:45-53 | Selections are read one by one, and numbers that name none are passed over. |
| `Archive.FrameLayout` | crates/xmtp_archive/src/exporter.rs:206-207 | A frame is the length of its ciphertext in four bytes, least significant first, and the ciphertext. |
| `Archive.HeaderLayout` | crates/xmtp_archive/src/exporter.rs:103-105 | An archive begins with two zero bytes and the twelve bytes of the nonce, least significant first. |
| `Archive.ZeroFrameSkipped` | crates/xmtp_archive/src/importer.rs:51-56 | A frame of length zero changes nothing about what is imported. |
| `Archive.FramesImport` | crates/xmtp_archive/src/importer.rs:41-83 | Frames sealed under consecutive nonces import as the same plaintexts in order, end cleanly, and leave the nonce one past the last. |
| `Archive.DeliveredFit` | crates/xmtp_archive/src/importer.rs:49-52 | From any bytes at all, only plaintexts whose ciphertext is shorter than 2^32 bytes can be delivered. |
| `Archive.FramesImportIff` | crates/xmtp_archive/src/exporter.rs:202-208 | The framing round-trips if and only if every ciphertext is shorter than 2^32 bytes. |
| `Archive.FramesSize` | crates/xmtp_archive/src/exporter.rs:202-208 | The frames take exactly four bytes and a tag beyond their plaintexts. |
| `Archive.DeliveredSize` | crates/xmtp_archive/src/importer.rs:41-83 | From any bytes at all, what is delivered took up no more than the input. |
| `Archive.LostPrefixIsFatal` | crates/xmtp_archive/src/importer.rs:42-54 | Once a drained prefix is forgotten, no importer nonce makes what is left deliver the frames as written. |
| `Archive.FramesAreSealedInOrder` | crates/xmtp_archive/src/exporter.rs:202-208 | Frame i is sealed under the start nonce plus i, and up to 2^96 frames no two share a nonce. |
| `Archive.UnsealExact` | crates/xmtp_archive/src/importer.rs:56-76 | A ciphertext opens exactly when its nonce is the importer's or the one before, and the next nonce is one past the ciphertext's own. |
| `Archive.LinkedTail` | crates/xmtp_archive/src/importer.rs:56-76 | The legacy rule from the start is the rule for the first frame and the rule from its successor for the rest. |
| `Archive.LegacyAcceptance` | crates/xmtp_archive/src/importer.rs:56-76 | On any well-framed input, forged frames included, the importer delivers precisely the longest prefix under the legacy rule; its nonce is one past the last accepted, restored after a failure; a clean end means all were accepted. |
| `Truncation.CutImport` | crates/xmtp_archive/src/importer.rs:41-83 | Frames cut at any byte deliver exactly those that lie whole before the cut, leave the nonce one past the last of them, and end cleanly if nothing or a whole prefix is left over and never otherwise. |
| `Truncation.CleanEndMissesIff` | crates/xmtp_archive/src/importer.rs:78-83 | A clean end hides missing frames if and only if the cut is at the beginning of a frame or right after its prefix. |
| `Truncation.LonePrefixLooksEnded` | crates/xmtp_archive/src/importer.rs:49-54 | Cut right after the prefix of frame k, the first k frames come with a clean end. |
| `Truncation.CutBodySpins` | crates/xmtp_archive/src/importer.rs:43-81 | Cut inside the body of frame k, the poll after the first k frames never returns. |
| `Archive.TagCipherIsIdeal` | crates/xmtp_archive/src/exporter.rs:202-205 | The ideal-cipher assumption can be met. |
| `Archive.CopyingCodecIsLossless` | crates/xmtp_archive/src/exporter.rs:210-216 | The lossless-codec assumption can be met. |
| `PlainWire.PlainWireIsFaithful` | crates/xmtp_archive/src/exporter.rs:179-189 | The message-codec assumption can be met. |
| `ExportStream.ExportedInOrder` | crates/xmtp_archive/src/export_stream/mod.rs:171-209 | A streamer exports a prefix of the records its provider keeps: none twice, reordered or made up. |
| `ExportStream.KeptJoins` | crates/xmtp_archive/src/export_stream/mod.rs:191-202 | The records kept of one table after another are those of each, in order. |
| `ExportStream.ExportedWholeIff` | crates/xmtp_archive/src/export_stream/mod.rs:191-208 | It exports all of them if and only if no page is skipped throughout in front of a kept record. |
| `ExportStream.SkippedPage` | crates/xmtp_archive/src/export_stream/mod.rs:191-195 | A first page skipped throughout ends the export, which is right only if nothing kept follows. |
| `ExportStream.LostBehindSkippedPage` | crates/xmtp_archive/src/export_stream/group_save.rs:42-126 | A readable record behind a hundred unreadable ones is lost. |
| `ExportStream.NothingSkippedIsWhole` | crates/xmtp_archive/src/export_stream/consent_save.rs:14-24 | A provider that skips nothing exports its whole table, if that stays as it is. |
| `ExportStream.BackupRecordStreamer.constructor` | crates/xmtp_archive/src/export_stream/mod.rs:152-163 | A new streamer has the whole table before it. |
| `ExportStream.BackupRecordStreamer.PollNext` | crates/xmtp_archive/src/export_stream/mod.rs:171-209 | Each poll takes one event off the streamer's script: stalled exactly for a query that is not ready, broken exactly for one that fails; the cursor moves by a page exactly with a batch. |
| `ExportStream.BatchExportStream.constructor` | crates/xmtp_archive/src/export_stream/mod.rs:44-76 | The stack of sources, reversed, still drains in the order of the selections. |
| `ExportStream.FlattenLaw` | crates/xmtp_archive/src/export_stream/mod.rs:97-117 | A batch becomes its elements, a stall a stall and a failure a failure, each in its place. |
| `ExportStream.BatchExportStream.PollNext` | crates/xmtp_archive/src/export_stream/mod.rs:82-120 | Polls report the flattened events in order, one each, whatever the batch sizes, and then the end, for ever. |
| `ExportStream.GroupsBeforeMessages` | crates/xmtp_archive/src/export_stream/mod.rs:51-68 | Messages are always drained right after groups. |
| `Orphans.SelectedIs` | crates/xmtp_archive/src/export_stream/mod.rs:51-68 | What each selection exports: consent records, groups followed by messages, or nothing. |
| `ExportStream.ScriptDelivers` | crates/xmtp_archive/src/export_stream/mod.rs:171-209 | Wherever queries are not ready or fail, a streamer delivers the same elements. |
| `ExportStream.StreamDelivers` | crates/xmtp_archive/src/export_stream/mod.rs:82-120 | The whole stream delivers the selected tables in the order of the selections. |
| `ExportStream.GaplessExportsAll` | crates/xmtp_archive/src/export_stream/mod.rs:44-120 | Without gaps, every kept record of every selected table is exported. |
| `Orphans.NoOrphansIff` | crates/xmtp_archive/src/export_stream/group_save.rs:90-99 | In any export that selects messages, every message follows its group if and only if every group an exported message belongs to is exported. |
| `Orphans.LostGroupOrphans` | crates/xmtp_archive/src/export_stream/mod.rs:191-195 | If the first page of groups is skipped throughout, any exported message is an orphan. |
| `Orphans.WindowOrphans` | crates/xmtp_archive/src/export_stream/group_save.rs:28-40 | A message in the time window whose group was created outside it is an orphan. |
| `Expiry.OnPageIff` | crates/xmtp_db/src/encrypted_store/group_message.rs:986-1031 | A message is on a page exactly if it is alive at the query and as many live ones precede it as fall before that place. |
| `Expiry.SurvivorExportedIff` | crates/xmtp_db/src/encrypted_store/group_message.rs:1013-1024 | A message alive throughout the export is exported if and only if expiries never let it slide below the cursor of the next page. |
| `Expiry.NothingExpiresAllExported` | crates/xmtp_archive/src/export_stream/message_save.rs:15-34 | If nothing expires during the export every live message is exported. |
| `Expiry.LostBehindExpiry` | crates/xmtp_db/src/encrypted_store/group_message.rs:1013-1024 | Of a hundred and one messages the last is lost if the first expires after the first page. |
| `Exporter.PlanWrites` | crates/xmtp_archive/src/exporter.rs:168-223 | Wherever fills and flushes fall, the compressor is written exactly what is still to come and closed once, last. |
| `Exporter.PlanExtends` | crates/xmtp_archive/src/exporter.rs:168-223 | Nothing already emitted is ever changed. |
| `Exporter.TodosPutFrames` | crates/xmtp_archive/src/exporter.rs:174-208 | Not-ready and failed polls aside, the writes are the frames of the delivered elements under consecutive nonces. |
| `Exporter.BodyInflates` | crates/xmtp_archive/src/exporter.rs:168-228 | The compressed body inflates to the frames of metadata and elements, wherever the element stream was not ready. |
| `Exporter.ArchiveExporter.constructor` | crates/xmtp_archive/src/exporter.rs:99-121 | A new exporter is set to hand out version, nonce and compressed body. |
| `Exporter.ArchiveExporter.WriteElement` | crates/xmtp_archive/src/exporter.rs:202-216 | One element is sealed under the current nonce, prefixed and written, and the nonce stepped. |
| `Exporter.ArchiveExporter.Round` | crates/xmtp_archive/src/exporter.rs:173-216 | One round seals the metadata or the element a poll gives, reports a poll that was not ready as pending and one that failed as an error, or closes the compressor at the end, once. |
| `Exporter.ArchiveExporter.Fill` | crates/xmtp_archive/src/exporter.rs:172-217 | The inner loop stays on the plan fixed at construction; it takes elements in order and stops at 8000 bytes, at the end with the compressor closed, or at the first poll that gives none, pending or failing as that poll does. |
| `Exporter.ArchiveExporter.Refill` | crates/xmtp_archive/src/exporter.rs:168-228 | Clearing, filling and flushing loses no byte; an empty sink afterwards means everything has been handed out. |
| `Exporter.ArchiveExporter.ServeHeader` | crates/xmtp_archive/src/exporter.rs:144-153 | The next header bytes go to the front of the buffer and nothing else in it changes. |
| `Exporter.ArchiveExporter.ServeSink` | crates/xmtp_archive/src/exporter.rs:155-166 | The next sink bytes go to the front of the buffer and nothing else in it changes. |
| `Exporter.ArchiveExporter.OutWithinGoal` | crates/xmtp_archive/src/exporter.rs:136-230 | At every moment what was handed out is a prefix of the final archive. |
| `Exporter.ArchiveExporter.PollRead` | crates/xmtp_archive/src/exporter.rs:136-230 | Each poll hands out the next bytes of a goal that never moves, for any buffer; it is pending, or fails, exactly as the first poll of the element stream that gives no element; 0 into a nonempty buffer means all was handed out, trailer included, and stays so. |
| `Exporter.ExportAll` | crates/xmtp_archive/src/exporter.rs:136-230 | For every sequence of nonempty buffers reading ends, and the output is header and body: no byte lost, repeated or reordered. |
| `Replay.PollSees` | crates/xmtp_archive/src/importer.rs:41-83 | However reads split the bytes, a poll stops at the frame they begin with, and one given up leaves exactly what follows what it had in hand. |
| `Replay.PollHears` | crates/xmtp_archive/src/importer.rs:44-48 | A poll waits exactly at the first stall it meets and breaks exactly at the first fault; before that every read gave something. |
| `Replay.AwaitSees` | crates/xmtp_archive/src/importer.rs:41-83 | The same through any number of stalls that lose no prefix. |
| `Replay.HarmlessRunIsImport` | crates/xmtp_archive/src/importer.rs:35-84 | A whole run that loses no prefix is the one function of the bytes; a fault cuts it short and does nothing worse. |
| `Replay.RunKeepsSchedule` | crates/xmtp_archive/src/importer.rs:43-48 | A schedule without stalls is harmless, and one without faults never ends in one. |
| `Replay.RunConserves` | crates/xmtp_archive/src/importer.rs:35-84 | On every schedule, what is delivered and a prefix that was lost were all in the input. |
| `Replay.FramesComeBackIff` | crates/xmtp_archive/src/importer.rs:42-54 | Frames come back as written if and only if the run loses no prefix. |
| `Replay.StallAfterPrefix` | crates/xmtp_archive/src/importer.rs:42-54 | A read of just the prefix followed by a stall loses it, for any frames and whatever follows. |
| `Replay.StallsFirst` | crates/xmtp_archive/src/importer.rs:43-48 | A stall at the beginning of a poll changes nothing. |
| `Importer.ArchiveImporter.constructor` | crates/xmtp_archive/src/importer.rs:88-105 | A new importer has the whole stream before it, at the nonce of the header. |
| `Importer.ArchiveImporter.Decrypt` | crates/xmtp_archive/src/importer.rs:56-72 | One step back is tried on failure, and the nonce is restored if that fails too. |
| `Importer.ArchiveImporter.Deliver` | crates/xmtp_archive/src/importer.rs:56-76 | A buffered frame is delivered, dropped and stepped past, or refused with bytes and nonce kept. |
| `Importer.ArchiveImporter.PollNext` | crates/xmtp_archive/src/importer.rs:35-84 | Every poll terminates and goes as its replay says, on every schedule; it is pending exactly on a stall and an IO error exactly on a failed read; it is given up with a prefix in hand exactly when the replay is; otherwise nothing is lost and the answer is decided by the frame the unparsed bytes begin with. |
| `Importer.ArchiveImporter.Next` | crates/xmtp_archive/src/importer.rs:35-84 | Polling until there is an answer goes as its replay says; if the replay loses no prefix, stalls change nothing about the answer. |
| `Importer.ArchiveImporter.RunStep` | crates/xmtp_archive/src/importer.rs:56-83 | After an element exactly the rest of the run follows it; after any other answer the run is over, for the reason given. |
| `Importer.Load` | crates/xmtp_archive/src/importer.rs:88-116 | On every schedule, faults included: loading fails on a short header or a first element that is not metadata, and otherwise leaves an importer that will deliver the rest of the replay. |
| `Importer.FaultIsMissingMetadata` | crates/xmtp_archive/src/importer.rs:107-112 | A read that fails before the metadata is there is reported as missing metadata. |
| `Importer.Drain` | crates/xmtp_archive/src/importer.rs:35-84 | On every schedule polling to the end delivers what the replay of the run delivers, in order. |
| `Importer.HarmlessImportReads` | crates/xmtp_archive/src/importer.rs:35-116 | An import that loses no prefix and meets no fault is one function of the archive bytes, whatever the splits and stalls. |
| `Importer.ImportArchive` | crates/xmtp_archive/src/importer.rs:35-116 | On every schedule the result is the replay; on every harmless one, the one function of the archive bytes; fewer than fourteen bytes are an IO error. |
| `RoundTrip.HeaderParts` | crates/xmtp_archive/src/importer.rs:88-94 | Version and nonce are read back where the exporter put them. |
| `RoundTrip.PlaintextsRoundTripIff` | crates/xmtp_archive/src/exporter.rs:202-208 | A whole archive's plaintexts come back if and only if every ciphertext is shorter than 2^32 bytes. |
| `RoundTrip.ArchiveRoundTrip` | crates/xmtp_archive/src/importer.rs:35-116 | Reading an archive gives back the options, time and elements, in order, with a clean end. |
| `RoundTrip.AnyFramesRead` | crates/xmtp_archive/src/importer.rs:35-116 | Of any frames at all: without metadata in front loading is refused; otherwise every other frame comes back in its place, decoded or as an error. |
| `RoundTrip.CutArchiveReads` | crates/xmtp_archive/src/importer.rs:35-116 | An archive whose body decompresses to a cut of its frames: loading is refused or hangs if the metadata is cut, and otherwise the whole elements come back with the end the cut gives. |
| `RoundTrip.CutBodyExists` | crates/xmtp_archive/src/importer.rs:96-105 | There is such a body for every cut. |
| `RoundTrip.WrongKeyIsRefused` | crates/xmtp_archive/src/importer.rs:107-112 | Under a key that opens no frame, loading reports missing metadata. |
| `RoundTrip.PlaintextsComeBackIff` | crates/xmtp_archive/src/importer.rs:35-116 | For a whole archive on any fault-free schedule, the plaintexts come back if and only if no poll is given up with a prefix in hand. |
| `RoundTrip.StallLosesMetadata` | crates/xmtp_archive/src/importer.rs:42-54 | The schedule of one four-byte read and one stall is such a loss for every archive. |
| `RoundTrip.ExportThenImport` | crates/xmtp_archive/src/exporter.rs:136-230 | For all export buffers, all Pendings of the element stream and every import schedule the result is the replay; on every harmless, fault-free one exactly what was exported comes back. |
| `RoundTrip.BackupRestoresRecords` | crates/xmtp_archive/src/export_stream/mod.rs:44-120 | From tables without gaps, an archive restores every kept record of the selected tables, in order. |
| `CacheKey.BuildCacheKey` | apps/mls_validation_service/src/cached_signature_verifier.rs:15-45 | The key is the digest of the encoded request. |
| `CacheKey.PreimageLayout` | apps/mls_validation_service/src/cached_signature_verifier.rs:29-43 | The buffer byte by byte: three fields with big-endian lengths around the hash, and a tag 1 with the big-endian block number or a tag 0. |
| `CacheKey.FieldCancel` | apps/mls_validation_service/src/cached_signature_verifier.rs:29-36 | A field shorter than 2^32 bytes can be read back off the front of anything. |
| `CacheKey.PreimageInjective` | apps/mls_validation_service/src/cached_signature_verifier.rs:21-43 | With fields under 2^32 bytes, equal buffers mean equal requests, None against Some(0) included. |
| `CacheKey.LongFieldsCollide` | apps/mls_validation_service/src/cached_signature_verifier.rs:29-36 | Two different requests with a field of 2^32 bytes share a buffer. |
| `CacheKey.UniquelyDecodableIff` | apps/mls_validation_service/src/cached_signature_verifier.rs:21-43 | The encoding is uniquely decodable up to a field size if and only if that size is below 2^32. |
| `CacheKey.KeysDistinguish` | apps/mls_validation_service/src/cached_signature_verifier.rs:15-45 | Among requests without a digest collision, equal keys mean equal requests. |
| `LruCache.Lru.Get` | apps/mls_validation_service/src/cached_signature_verifier.rs:79-84 | A hit returns the stored value and becomes most recent; a miss changes nothing. |
| `LruCache.Lru.Put` | apps/mls_validation_service/src/cached_signature_verifier.rs:91-92 | The pair becomes most recent and only the least recent leaves a full cache. |
| `LruCache.LookupKeeps` | apps/mls_validation_service/src/cached_signature_verifier.rs:79-84 | A lookup reorders and nothing more. |
| `LruCache.InsertKeeps` | apps/mls_validation_service/src/cached_signature_verifier.rs:91-92 | A put keeps the capacity, holds its pair, and otherwise only forgets. |
| `LruCache.InsertRetains` | apps/mls_validation_service/src/cached_signature_verifier.rs:91-92 | A new key does not push k out while fewer than capacity other keys are in play. |
| `CachedVerifier.CachedSmartContractSignatureVerifier.constructor` | apps/mls_validation_service/src/cached_signature_verifier.rs:57-65 | The cache starts empty with the given capacity. |
| `CachedVerifier.CachedSmartContractSignatureVerifier.IsValidSignature` | apps/mls_validation_service/src/cached_signature_verifier.rs:70-95 | A hit answers with the stored response and without the inner verifier; a miss asks it once, answers as it does, stores its response if that is Ok, and otherwise leaves the cache as it was. |
| `CachedVerifier.CapacityKept` | apps/mls_validation_service/src/cached_signature_verifier.rs:56-96 | In every sequential run the cache never exceeds its capacity. |
| `CachedVerifier.RetainedStep` | apps/mls_validation_service/src/cached_signature_verifier.rs:77-94 | One call keeps the entry of k while fewer than capacity other keys have succeeded. |
| `CachedVerifier.Retained` | apps/mls_validation_service/src/cached_signature_verifier.rs:77-94 | So does every run of calls. |
| `CachedVerifier.AnsweredAgainWithoutInner` | apps/mls_validation_service/src/cached_signature_verifier.rs:77-94 | A successful request is answered again from the cache, unchanged, if fewer than capacity other keys succeeded since. |
| `CachedVerifier.Overtaken` | apps/mls_validation_service/src/cached_signature_verifier.rs:77-94 | While a request is not made again, every other key that succeeds comes before it or pushes it out. |
| `CachedVerifier.RetainedIff` | apps/mls_validation_service/src/cached_signature_verifier.rs:77-94 | A successful request not made again is still cached if and only if fewer than capacity other keys succeeded since. |
| `CachedVerifier.RunTraced` | apps/mls_validation_service/src/cached_signature_verifier.rs:77-94 | Every interleaving keeps: answers, fetched responses and cache entries each trace to an answer of the inner verifier. |
| `CachedVerifier.EveryAnswerIsForItsRequest` | apps/mls_validation_service/src/cached_signature_verifier.rs:77-94 | In every interleaving with any evictions, each answer was given by the inner verifier for exactly that request. |
| `CachedVerifier.CachedAgreesWithUncached` | apps/mls_validation_service/src/cached_signature_verifier.rs:77-94 | If the inner verifier is a function, cached and uncached agree on every run. |
| `CachedVerifier.LruPutIsAStore` | apps/mls_validation_service/src/cached_signature_verifier.rs:91-92 | The real cache's evictions are among those the concurrent model allows. |
| `CachedVerifier.CallIsARun` | apps/mls_validation_service/src/cached_signature_verifier.rs:70-95 | One call with nobody else about is a legal run of the concurrent system, with the same answer and the same cache. |
| `CachedVerifier.CallsAreARun` | apps/mls_validation_service/src/cached_signature_verifier.rs:70-95 | So is every sequence of calls, each with its own answer. |
| `CachedVerifier.SequentialAnswersAreTraced` | apps/mls_validation_service/src/cached_signature_verifier.rs:70-95 | So every answer in such a sequence was given by the inner verifier for exactly that request. |
| `NativeCloser.RunKeepsInv` | bindings/node/src/streams.rs:35-79 | Every run keeps the lock, handle, receiver and caller invariants; handle owner, task outcome and a taken receiver never change back. |
| `NativeCloser.ReturnedMeansEnded` | bindings/node/src/streams.rs:44-64 | Over every interleaving in which no join of a running task is dropped, when any end_and_wait has returned the task has ended. |
| `NativeCloser.OwnResultReachesOne` | bindings/node/src/streams.rs:53-63 | The task's own outcome reaches at most one caller: as Ok exactly if it was cancelled or completed well, and as message m exactly if it panicked with m or completed with error m; all others get Ok. |
| `NativeCloser.LateCallerAnswered` | bindings/node/src/streams.rs:46-48 | A caller that comes when the task has ended is answered at once. |
| `NativeCloser.HandleTakenOnce` | bindings/node/src/streams.rs:50-51 | Whoever takes the handle keeps it: it is taken at most once. |
| `NativeCloser.OrphanedBreaksTheWait` | bindings/node/src/streams.rs:50-63 | Once a join of a running task was dropped, a new caller is answered while it still runs. |
| `NativeCloser.WaitSoundIff` | bindings/node/src/streams.rs:44-64 | After any run, returns mean that the task has ended in every continuation if and only if no join of a running task was dropped or the task has ended since. |
| `NativeCloser.StepsUseWork` | bindings/node/src/streams.rs:44-72 | Every step other than a new request lowers a measure of the work left. |
| `NativeCloser.SomeoneCanMove` | crates/xmtp_common/src/stream_handles.rs:230-254 | While an end_and_wait waits and the closer is not blocked, a step that needs neither the task nor a caller leads on. |
| `NativeCloser.Answered` | crates/xmtp_common/src/stream_handles.rs:244-254 | Then some order of such steps answers it within the work left. |
| `NativeCloser.AnsweredIff` | bindings/node/src/streams.rs:44-72 | Some order of steps that need neither the task nor a caller answers a waiting end_and_wait if and only if no wait_for_ready holds the lock on a task neither ready, ended nor aborted. |
| `NativeCloser.PromptRunsEnd` | bindings/node/src/streams.rs:44-72 | There are never more such steps than there is work left. |
| `NativeCloser.AlwaysAnsweredIff` | bindings/node/src/streams.rs:44-72 | Every such order, taken until no step is left, answers it if and only if besides no queued wait_for_ready could block the closer. |
| `NativeCloser.WaitForReadyContends` | bindings/node/src/streams.rs:44-72 | A wait_for_ready and an end_and_wait queued together are a state in which that can go wrong. |
| `NativeCloser.BlockedUntil` | bindings/node/src/streams.rs:68-73 | Until the task gets ready or ends, somebody ends it, or the waiting call is dropped, a blocked closer stays blocked and answers nobody in the queue. |
| `NativeCloser.UnblocksFrees` | bindings/node/src/streams.rs:35-72 | Each of these four does unblock it. |
| `NativeCloser.WaitForReadyBlocks` | bindings/node/src/streams.rs:44-72 | A wait_for_ready followed by an end_and_wait is such a state. |
| `NativeCloser.ReturnedMeansReady` | crates/xmtp_common/src/stream_handles.rs:234-238 | Over every interleaving in which no call is dropped that the task keeps waiting, when any wait_for_ready has returned the task was ready or has ended. |
| `NativeCloser.ReadySoundIff` | crates/xmtp_common/src/stream_handles.rs:234-238 | From any state with the invariant, returns of wait_for_ready mean readiness in every such continuation if and only if they do now and there is a receiver left to take, a lock held, or nothing more to wait for. |
| `NativeCloser.DroppedWaitHidesReadiness` | crates/xmtp_common/src/stream_handles.rs:234-238 | Dropping the waiting call lets the next one return before readiness. |
| `WasmHandle.RunKeepsInv` | crates/xmtp_common/src/stream_handles.rs:143-201 | Every run keeps: no result before the task resolved, one afterwards, and each one justified. |
| `WasmHandle.ExactlyOneResult` | crates/xmtp_common/src/stream_handles.rs:134-176 | At most one result is ever sent, finished implies it was sent, and it is the future's value or follows an end signal. |
| `WasmHandle.TaskFinishes` | crates/xmtp_common/src/stream_handles.rs:161-176 | With a signal or a ready future the task by itself sends exactly one result and is finished. |
| `WasmHandle.DroppingClosersNeverEnds` | crates/xmtp_common/src/stream_handles.rs:189-200 | Without a signal, dropping every closer never ends the task. |
| `WasmHandle.SignalBeatsFuture` | crates/xmtp_common/src/stream_handles.rs:161-174 | A signal stored before the task resolves wins in every continuation, even over a future already ready. |
| `Retry.ComputeBackoff` | crates/xmtp_common/src/retry.rs:201-216 | The step-by-step clamped loop is the closed form: the bare duration at first, then the clamped duration times a power of the multiplier, plus jitter; it stops exactly past the total limit and panics exactly on overflow. |
| `Retry.WaitsByStep` | crates/xmtp_common/src/retry.rs:205-211 | From the second wait on, each is the one before times the multiplier, clamped. |
| `Retry.ClampStep` | crates/xmtp_common/src/retry.rs:206-211 | Clamping at every step is clamping once at the end. |
| `Retry.BaseWaitMonotoneIff` | crates/xmtp_common/src/retry.rs:205-211 | Waits never shrink if and only if the duration is zero, or within the limit with a multiplier of at least one. |
| `Retry.NoOverflow` | crates/xmtp_common/src/retry.rs:205-215 | With a duration within the limit and a jitter that fits, no product or sum overflows. |
| `Retry.RetryAsync` | crates/xmtp_common/src/retry.rs:325-368 | Between one and retries + 1 invocations; every outcome before the last was a retryable error with a sleep asked for and slept; the last is the result; it gives up only for a stated reason. |
| `Retry.TimeAddsUp` | crates/xmtp_common/src/retry.rs:332-352 | The time the strategy is told is that of all invocations, all sleeps and all their lateness. |
| `Retry.SleepsBounded` | crates/xmtp_common/src/retry.rs:201-216 | The sleeps of any run total at most the total limit, one longest wait and one jitter. |
| `Retry.LimitHoldsIff` | crates/xmtp_common/src/retry.rs:135-136 | For settings whose waits do not overflow, the total limit bounds the sleeps of every run with the given retries if and only if all their waits with the longest jitter add up to no more. |
| `Retry.DefaultKeepsLimit` | crates/xmtp_common/src/retry.rs:78-85 | The defaults, whose five waits are 2050 ms in all, meet this condition. |
| `Retry.ShortLimitIsPassed` | crates/xmtp_common/src/retry.rs:189-197 | Settings the builder accepts that do not. |
| `Retry.RetryWithBackoff` | crates/xmtp_common/src/retry.rs:325-368 | Both together: outcome, retried errors and total sleep of a run with exponential backoff. |
| `Jitter.Anchored` | crates/xmtp_common/src/time.rs:122-164 | Deadlines stay anchored at the start however late ticks fire. |
| `Jitter.Recurrence` | crates/xmtp_common/src/time.rs:122-164 | Each tick comes a draw after the later of its deadline and the tick before. |
| `Jitter.NeverEarly` | crates/xmtp_common/src/time.rs:122-164 | No tick precedes its deadline. |
| `Jitter.StaysAnchored` | crates/xmtp_common/src/time.rs:249-253 | With a jitter of at most one period, tick n is at its deadline plus its own draw, for ever. |
| `Jitter.GapsBounded` | crates/xmtp_common/src/time.rs:249-253 | For any jitter, gaps are within the jitter of one period. |
| `Jitter.OnScheduleIff` | crates/xmtp_common/src/time.rs:122-164 | All ticks of all runs stay within the jitter after their deadlines if and only if the jitter is at most one period. |
| `Jitter.FirstTick` | crates/xmtp_common/src/time.rs:136-142 | The first tick comes within twice the jitter of boot. |
| `Batching.ChunksConcat` | crates/xmtp_api/src/mls.rs:282-299 | Chunks put together are the input. |
| `Batching.ChunksSizes` | crates/xmtp_api/src/mls.rs:282-299 | No chunk is empty, only the last may be short, and there are as few as possible. |
| `Batching.SeparableIffIndependent` | crates/xmtp_api/src/mls.rs:301-326 | Splitting requests changes nothing if and only if the server answers each element independently and in order. |
| `Batching.BatchingInvisibleIff` | crates/xmtp_api/src/mls.rs:301-326 | Batches of a given size are invisible for every input, errors included, if and only if splitting off that many elements changes nothing. |
| `Batching.SeparableAtEverySize` | crates/xmtp_api/src/mls.rs:301-326 | That holds at every size if and only if requests can be split anywhere. |
| `Batching.PublishCommitLog` | crates/xmtp_api/src/mls.rs:282-299 | Batches of 1 to 10, all but the last accepted; together the whole input on success, and on failure a prefix ended by the refused batch. |
| `Batching.QueryCommitLog` | crates/xmtp_api/src/mls.rs:301-326 | From a server separable at twenty elements the result is that of one request for everything, first error included. |
| `Batching.GatherIsWhole` | crates/xmtp_api/src/identity.rs:79-105 | In whatever order concurrent chunks complete, the result is that of one request; of several errors the first to complete is reported. |
| `Batching.IdentityUpdatesUnchunked` | crates/xmtp_api/src/identity.rs:68-109 | Chunked identity updates give one entry for each item one request would give, in order, with its inbox id and every update converted in its place, if and only if all updates convert; else the error of the first that does not; a refusal gives the error of the refused chunk that completes first. |
| `Batching.CollectLast` | crates/xmtp_api/src/mls.rs:346-351 | Collecting keeps a key exactly when it occurs, with its last value. |
| `Batching.NewestUnchunked` | crates/xmtp_api/src/mls.rs:328-354 | Chunked metadata equals that of one request; a refusal gives the error of the refused chunk that completes first. |
| `Batching.NewestIsPerGroup` | crates/xmtp_api/src/mls.rs:328-354 | From a server of newest messages the map holds exactly the groups asked for that have one, each with its own. |
| `Batching.KeyPackagesByKey` | crates/xmtp_api/src/mls.rs:143-187 | A fetch succeeds exactly when nothing was asked or as many packages came as keys; the map has exactly the keys, each with the package at its last place; a refusal or the two unequal numbers are reported. |
| `Reconnect.Hold` | apps/keepalive-probe/src/main.rs:363-421 | The loop terminates, with counts and ending told by its attempts and the time left. |
| `Reconnect.TotalIsSum` | apps/keepalive-probe/src/main.rs:377-386 | The payload total is the sum of what each attempt says it received, nothing for one that was never set up. |
| `Reconnect.StartIsSum` | apps/keepalive-probe/src/main.rs:364-419 | An attempt starts after those before it, a second of sleep for each, and what the sleeps were late. |
| `Reconnect.RunSubscribe` | apps/keepalive-probe/src/main.rs:353-421 | At most one attempt per whole second of the duration; payloads sum over what all attempts received; every attempt but one cut off is a disconnect; Err, with its error, exactly when the first attempt is made, fails to set up, and the run is not continual; Died, with its reason, exactly when it is lost without reconnecting. |
| `Reconnect.BoundIsReached` | apps/keepalive-probe/src/main.rs:364-421 | A run that reconnects and loses every attempt at once makes exactly as many as the bound allows. |
| `Reconnect.ContinualLasts` | apps/keepalive-probe/src/main.rs:131-135 | With the settings a continual run is given, it never fails or dies and lasts a hundred years less one second. |
| `Reconnect.SubscribeMode` | apps/keepalive-probe/src/main.rs:131-135 | The same of a worker started from the command line. |

## Left out

- AES-GCM, keccak, zstd, prost and serde internals: parameters with stated laws. The bytes zstd emits may depend on where the element stream was not ready, as flushes then fall elsewhere, but never on the caller's buffers.
- Compressor errors and pending compressor writes: the sink is an in-memory vector, whose writes complete at once.
- Record conversion and MLS state loading in the three providers: a table is modelled as what its provider makes of each record. Tables do not change during the export, apart from messages that expire (`Expiry.dfy`).
- `export_to_file`, `post_to_url`, file import, HTTP, gRPC and database access: input and output.
- Importer.Drain: models a consumer that stops at the first failed read; reads of the fourteen header bytes do not fail other than by being too short.
- What zstd makes of compressed bytes that stop early: the decoder's own matter; a failed read is a fault of the schedule, and RoundTrip.CutArchiveReads is about what was decompressed.
- What an importer delivers when it is polled on after a decryption error: bytes and nonce at that point are stated, and nothing is promised beyond.
- NativeCloser.Answered: says that some order of steps answers a waiting caller, AlwaysAnsweredIff when every order does, and StepsUseWork that no run of steps other than new requests goes on for ever; fairness of the runtime's scheduler and the order in which the lock is passed on are not modelled.
- NativeCloser.ReturnedMeansEnded: assumes that no join of a running task is dropped; WaitSoundIff shows that this is exact.
- Retry.LimitHoldsIff: is for settings whose waits do not overflow; one that does panics, as ComputeBackoff says.
- Reconnect.ContinualLasts: assumes that a subscription is cut off only when its budget is used up.
- CachedVerifier.EveryAnswerIsForItsRequest: assumes no digest collision among the requests of the run and fields under 2^32 bytes.
- Jitter.Recurrence: the consumer asks for each tick as soon as it has the one before; on wasm the interval is a different timer, which is not modelled.
- Reconnect.RunSubscribe: two readings of the clock with nothing awaited between them count as one, counters do not wrap at 2^64, and hex decoding of the group id is a parameter.
- Batching: servers are functions of a request's content during one call; only publishing sees a server whose replies depend on what was sent before.
- Summaries, reason histograms, percentiles and logging of the probe: finite tallies and output.
- The mobile, node and wasm bindings apart from the stream closer, permission policy conversions, content type codecs, association state in `handlers.rs`: field-by-field conversions, or code that folds over functions not modelled here.
