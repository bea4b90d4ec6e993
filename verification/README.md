# A verified model of the APFSDS storage, transport and session logic

APFSDS is a forwarding system: clients reach handlers over an obfuscated channel, handlers pass packets to exit nodes,
and a Raft-backed store keeps connection state. This project models the logic of its core components in Dafny and
proves what they guarantee over every input and every run.

Components that change state in place are classes whose methods are proved equal to a step function on the component's
value; theorems are then proved about every run of those steps. Foreign code (rkyv, serde_json, zstd, CRC32, HMAC,
signature schemes, base64, IP header parsing) enters as function parameters with the round-trip or ideal-signature law
the program relies on; `ExampleFormats.dfy` shows that these laws can be met. Clock readings, random draws and network
answers are inputs.

| file | component |
|---|---|
| `Base.dfy` | bytes, fixed-width integers, bitwise XOR, foreign serialisers |
| `Segment.dfy`, `Engine.dfy` | log-structured storage engine, one thread |
| `EngineConcurrency.dfy`, `EngineRuns.dfy` | the same engine under every interleaving of threads; its whole runs |
| `Wal.dfy` | write-ahead log: framed records in a file with a cursor |
| `RaftStorage.dfy` | Raft log rebuilt from the write-ahead log |
| `PacketStream.dfy`, `ExitNode.dfy` | reply stream between exit node and handler; virtual addresses |
| `XorMask.dfy`, `Padding.dfy`, `FrameCodec.dfy` | frame obfuscation |
| `ReplayCache.dfy`, `Authenticator.dfy`, `KeyRotation.dfy` | replay protection, one-time tokens, key rotation |
| `ExitPool.dfy`, `Doh.dfy` | failover pool; DNS answer format |
| `ExampleFormats.dfy` | formats and a signature scheme that meet the laws asked of foreign code |

## Main results

- **Storage.** In every interleaving of upserts, rotations, deletes and gets, split where the code takes and drops its
  locks, a get returns what a plain map held at the moment of its index search, a successful upsert publishes its
  record exactly once inside its call, and a failed one never does. Every call in progress can be finished from every
  state. A call that runs alone does what the sequential engine does: with one thread, the engine agrees with a plain
  map after every run, an upsert fails exactly when its record does not fit a segment, and the stored record has the
  key's largest successful transaction id. The last two fail under interleaving, and each has its run and its exact
  condition: a record that fits is refused when another thread fills the segment that its own rotation put in place
  (`FailedUpsert`, `FittingRecordRefused`), and the older record stays when the call that began first publishes last
  (`OlderStaysExactly`, `OlderRecordStays`).
- **Write-ahead log.** Reading succeeds with a list exactly on that list's encoding plus fewer than four stray bytes.
  A cut log gives the whole records before the cut, or an error, and the theorem says which. `append` takes entries
  that the reader refuses: after any run a read returns everything appended exactly when every entry is at most 128
  MiB, and one longer entry makes every later read fail (`RunReadsExactly`, `OneByteTooLong`).
- **Raft log.** Reopening restores every entry ever appended. Deletions are not logged, so a restart brings deleted
  entries back: the live log is the whole history exactly when no deletion has hit an entry since the last restart,
  and a restored log is consecutive exactly when every append was made on a log with nothing missing
  (`RestartConsecutiveExactly`, with the run `ReplacedEntryReturns`).
- **Obfuscation.** A mask of nine bytes determines the generator's seed, and eight do not; so unmasking nine or more
  bytes works exactly in the same time window. Frames round-trip for every draw and compression setting. Payload
  lengths in one bucket are indistinguishable exactly up to the smallest jittered target. Every byte of a frame and of
  a padded packet is determined, and each decoding error has its exact condition.
- **Sessions.** Over every run, a request or a token is accepted exactly under conditions stated on the history of
  calls, and so is each error (`VerifiedExactly`, `ConsumedExactly`). A nonce with its timestamp, and a token, are
  accepted at most once, as long as a call takes under a minute between its two clock readings; a minute is too long
  for either. A generated token opens exactly when the number of bytes split off as its signature is the size of a
  signature. In the program the two differ (3293 at daemon/src/auth.rs:10, 3309 at crates/crypto/src/keys.rs:147), so
  it refuses every token it generates (`NoTokenOpens`). A signature is accepted until its key has been rotated for a
  grace period or twice. Cleanups never change a verdict of the replay cache or of the key manager.
- **Streams and pools.** Replies reach a handler in order however the stream is cut, and they answer exactly the
  tunnel packets routed to it, once each. A pool client that is down is never used until a check finds it up or its
  stream opens again. Consecutive calls start at different pool slots exactly when the counter does not wrap among
  them, or the pool size divides its range. A DNS answer that is cut inside a record gives the addresses before the
  cut, except when the octets left look like records, which the parser then reads (`CutResponseExactly`, with the
  response `CutResponseMisread`).

## Model

| member | source | states |
|---|---|---|
| Segments.Segment.Append | crates/storage/src/segment.rs:45-61 | the segment becomes the appended value and the record's offset is returned, or nothing changes |
| Segments.Segment.Read | crates/storage/src/segment.rs:64-82 | the search loop finds the end of the record and decodes exactly its bytes |
| Segments.Segment.Seal | crates/storage/src/segment.rs:95-97 | only the sealed flag changes |
| Segments.AppendedReads | crates/storage/src/segment.rs:45-82 | appending works exactly when unsealed, encodable and within the limit; the new record reads back at its offset and every earlier record reads as before |
| Segments.ReadsToNext | crates/storage/src/segment.rs:64-82 | reading at any offset decodes the bytes up to the first record that starts later, or to the end, and nothing past the end |
| StorageEngine.StorageEngine.Upsert | crates/storage/src/engine.rs:84-130 | the method moves the engine to the value of the upsert step, error path included |
| StorageEngine.StorageEngine.Lookup | crates/storage/src/engine.rs:133-152 | the active check and the scan of sealed segments compute the get of the engine's value |
| StorageEngine.StorageEngine.RotateSegment | crates/storage/src/engine.rs:160-184 | the active segment is sealed and pushed, and a segment with a new id takes its place |
| StorageEngine.StorageEngine.Delete | crates/storage/src/engine.rs:155-157 | the key leaves the index and its pointer is returned |
| StorageEngine.StorageEngine.constructor | crates/storage/src/engine.rs:66-76 | a new engine has an empty active segment with a drawn id, no sealed segments, an empty index, and 1 as its first transaction id |
| StorageEngine.UpsertRepresents | crates/storage/src/engine.rs:84-130 | an upsert fails exactly when its record does not fit a segment, and then the represented map is unchanged; otherwise the map gains the record |
| StorageEngine.RotateRepresents | crates/storage/src/engine.rs:160-184 | rotation preserves the represented map |
| StorageEngine.GetAgreesWithMap | crates/storage/src/engine.rs:79-157 | after every run of upserts and deletes, across any number of rotations, get equals a plain map lookup |
| StorageEngine.GetReturnsLastUpsert | crates/storage/src/engine.rs:79-157 | after every run a get returns a record if and only if the key's last successful upsert stored it, with each field as given or drawn, and the key was not deleted since |
| StorageEngine.GetAfterUpsert | crates/storage/src/engine.rs:84-152 | after every run an upsert succeeds if and only if the record of its arguments fits, and the next get returns the metadata, the time twice, one access and the drawn transaction id |
| StorageEngine.OnlyActiveIsOpen | crates/storage/src/engine.rs:160-184 | in every run every segment but the active one is sealed |
| StorageEngine.LargestTxid | crates/storage/src/engine.rs:79-111 | a key's record comes from a successful upsert of it, and no successful upsert of it has a larger transaction id |
| EngineConcurrency.StepInv | crates/storage/src/engine.rs:84-184 | every atomic step of every thread keeps the invariant on tables, locks, index and calls in progress |
| EngineConcurrency.PcStays | crates/storage/src/engine.rs:101-149 | what a call relies on between two lock operations stays true while other threads move |
| EngineConcurrency.CheckActiveAnswers | crates/storage/src/engine.rs:136-141 | with the active lock free, a valid pointer is answered by the active segment or is already in a sealed one |
| EngineRuns.GetsAreLinearizable | crates/storage/src/engine.rs:133-152 | in every interleaving a finished get returns what the plain map held for its key at its own index search, inside the call |
| EngineRuns.SearchMeansPresent | crates/storage/src/blink_tree.rs:23-35 | at every state the index has exactly the keys of the plain map |
| EngineRuns.UpsertsAreLinearizable | crates/storage/src/engine.rs:84-130 | in every interleaving a successful upsert has exactly one index insert inside its call, which puts the record with its transaction id into the plain map |
| EngineRuns.MapChangesOnlyBy | crates/storage/src/engine.rs:84-157 | a delete takes its key out of index and map, and no step but a delete or an index insert changes the map |
| EngineRuns.TxidCountsUpserts | crates/storage/src/engine.rs:79-85 | in every interleaving transaction ids are 1, 2, 3 and so on in the order in which upserts begin |
| EngineRuns.RunSealed | crates/storage/src/engine.rs:160-171 | in every interleaving a segment taken out of the active slot is sealed |
| EngineRuns.AttemptFailsExactly | crates/storage/src/engine.rs:101-120 | an append attempt of a run fails if and only if the active segment has no room at that moment; the first failure rotates, the second is the error |
| EngineRuns.FailedUpsert | crates/storage/src/engine.rs:113-120 | a failed upsert has inserted nothing and found no room after its rotation; if its record fits an empty segment, another thread appended between its swap and its retry |
| EngineRuns.FittingRecordRefused | crates/storage/src/engine.rs:113-120 | a run in which a record that fits an empty segment is refused |
| EngineRuns.OlderStaysExactly | crates/storage/src/engine.rs:84-127 | of two successful upserts, the later inserted has the smaller transaction id if and only if its call began first |
| EngineRuns.OlderRecordStays | crates/storage/src/engine.rs:84-111 | a run that ends with the record of the smaller transaction id in the map |
| EngineRuns.NoDeadlock | crates/storage/src/engine.rs:101-184 | in every state of every run a call in progress can take its next step, or the thread that holds the lock it needs can |
| EngineRuns.CallsCanFinish | crates/storage/src/engine.rs:84-184 | from every state of every run, at most twelve further steps finish a given call |
| EngineConcurrency.UpsertAlone | crates/storage/src/engine.rs:84-130 | the lock-level steps of an upsert that runs alone end in the state and result of the sequential upsert |
| EngineConcurrency.GetAlone | crates/storage/src/engine.rs:133-152 | the lock-level steps of a get that runs alone return what the sequential get returns |
| WriteAheadLog.Wal.Append | crates/storage/src/wal.rs:40-56 | the three writes put one record at the cursor, overwriting what is there, and advance the cursor past it |
| WriteAheadLog.RecordFields | crates/storage/src/wal.rs:40-56 | a record is the checksum in bytes 0 to 3, the length in bytes 4 to 11, both big-endian, and then the data |
| WriteAheadLog.Wal.ReadAll | crates/storage/src/wal.rs:72-118 | the loop computes the reading of the whole file and leaves the cursor at the end only on success |
| WriteAheadLog.ReadExactly | crates/storage/src/wal.rs:72-118 | reading returns a list if and only if the bytes are its encoding, each entry at most 128 MiB, plus fewer than four stray bytes |
| WriteAheadLog.ReadOutcome | crates/storage/src/wal.rs:72-118 | any bytes are whole records and a rest; the result is those records if the rest is under four bytes, and otherwise the error its fields call for: end of file, too large, or wrong checksum |
| WriteAheadLog.CursorAfterRead | crates/storage/src/wal.rs:72-118 | after a read the cursor is at the end if that worked, else after the header or the record that was refused |
| WriteAheadLog.AppendedReadsBack | crates/storage/src/wal.rs:40-118 | appended entries read back if and only if none exceeds the reader's limit |
| WriteAheadLog.RunReadsExactly | crates/storage/src/wal.rs:40-118 | after every run of appends and reads, reading returns everything appended if and only if no entry is over 128 MiB; otherwise it fails for good |
| WriteAheadLog.OneByteTooLong | crates/storage/src/wal.rs:40-99 | an entry of 128 MiB and one byte, whatever follows it, leaves a log that cannot be read |
| WriteAheadLog.TornLog | crates/storage/src/wal.rs:79-112 | a cut under four bytes past a record boundary gives the whole records before it, any other cut is an unexpected end of file |
| WriteAheadLog.Wal.Truncate | crates/storage/src/wal.rs:65-69 | the file is cut or zero-extended and the cursor stays |
| WriteAheadLog.TruncatedReads | crates/storage/src/wal.rs:65-118 | truncating to where a record ends leaves exactly the entries up to it |
| RaftStorage.PersistentStorage.constructor | crates/raft/src/storage.rs:25-70 | opening replays the readable records that parse as entries, resets the hard state, and starts with the node as the only member |
| RaftStorage.OpenedExactly | crates/raft/src/storage.rs:25-70 | opening any file gives the entries among its whole records, or an empty log if more than three bytes follow them |
| RaftStorage.PersistentStorage.AppendEntryToLog | crates/raft/src/storage.rs:136-146 | the entry is added to the log and written at the cursor |
| RaftStorage.PersistentStorage.ReplicateToLog | crates/raft/src/storage.rs:148-160 | the batch is added to the log and written record by record |
| RaftStorage.PersistentStorage.SaveHardState | crates/raft/src/storage.rs:103-113 | the hard state is kept in memory and a marker record is written |
| RaftStorage.HardStateIsLastSaved | crates/raft/src/storage.rs:84-113 | over every run the hard state is the last one saved since the last restart, or term 0 without a vote |
| RaftStorage.PersistentStorage.DeleteLogsFrom | crates/raft/src/storage.rs:124-134 | the log keeps the entries outside the index range, the file is untouched |
| RaftStorage.RetainsExactly | crates/raft/src/storage.rs:124-134 | deleting keeps exactly the entries outside the index range, in order and as often as they occur |
| RaftStorage.PersistentStorage.GetLogEntries | crates/raft/src/storage.rs:115-122 | the entries with an index in the range, in log order |
| RaftStorage.SelectsExactly | crates/raft/src/storage.rs:115-122 | on any log the entries inside the range are selected, in order and as often as they occur, and no others |
| RaftStorage.PersistentStorage.GetInitialState | crates/raft/src/storage.rs:84-101 | the last term and index of the log, zero when empty, the last index as the last applied one, the hard state and the membership |
| RaftStorage.FileHoldsWritten | crates/raft/src/storage.rs:103-160 | over every run, restarts included, the file is the encoding of everything written with the cursor at its end |
| RaftStorage.ReplayWritten | crates/raft/src/storage.rs:34-42 | replaying what a run wrote gives what it appended, markers skipped |
| RaftStorage.ReopenRebuilds | crates/raft/src/storage.rs:33-42 | after every run, reopening restores exactly the history of appended entries, in order, and no hard state |
| RaftStorage.LiveLogFromHistory | crates/raft/src/storage.rs:115-160 | in every run the live log is a subsequence of the history |
| RaftStorage.RetainChangesExactly | crates/raft/src/storage.rs:124-134 | a deletion changes the log if and only if it holds an entry inside the bounds |
| RaftStorage.LiveLogIsHistoryExactly | crates/raft/src/storage.rs:115-160 | the live log is the whole history if and only if no deletion since the last restart was made while an entry lay inside its bounds |
| RaftStorage.LiveLogConsecutive | crates/raft/src/storage.rs:124-160 | runs that follow the Raft log rule keep the live log consecutive, when restarts happen only after appends made on a whole log |
| RaftStorage.RestartConsecutiveExactly | crates/raft/src/storage.rs:33-42 | a restart restores a consecutive log if and only if every append was made while no deleted entry was missing from the live log |
| RaftStorage.ReplacedEntryReturns | crates/raft/src/storage.rs:124-134 | a run that replaces entry 2 by the rule restarts into a log that holds index 2 twice |
| RaftStorage.SelectIsSlice | crates/raft/src/storage.rs:115-122 | on a consecutive log filtering by index equals the contiguous slice, for all bounds |
| PacketStream.Subscription.OnChunk | crates/transport/src/exit_client.rs:149-183 | after a chunk the decodable complete frames are dispatched and the rest is buffered |
| PacketStream.ChunksDoNotMatter | crates/transport/src/exit_client.rs:145-183 | for arbitrary bytes cut anywhere, the receiver dispatches the decodable frames of the whole stream and keeps the bytes after the last complete one |
| PacketStream.RestIsIncomplete | crates/transport/src/exit_client.rs:153-164 | what stays buffered is never a complete frame |
| PacketStream.ParseExactly | crates/transport/src/exit_client.rs:149-183 | on any bytes, parsing gives a list and a rest if and only if the bytes are that list framed and a rest that is no whole frame |
| PacketStream.PacketsArrive | crates/transport/src/exit_client.rs:145-183 | every list of packets, cut in any way, is dispatched exactly and in order |
| PacketStream.FramedSurvives | daemon/src/exit_node.rs:143-152 | a payload survives framing if and only if its length fits 32 bits |
| PacketStream.FramedBytes | daemon/src/exit_node.rs:143-152 | a frame is the length in four bytes, lowest first, and the payload |
| ExitNode.ExitService.HandleForward | daemon/src/exit_node.rs:161-232 | the next virtual address routes to the packet's handler and connection, and replaces the source address of an IPv4 packet |
| ExitNode.RewrittenBytes | daemon/src/exit_node.rs:180-212 | of an IPv4 packet only bytes 12 to 15 change, to the virtual address; any other packet stays as it is |
| ExitNode.ExitService.OnTunPacket | daemon/src/exit_node.rs:112-156 | a routed packet is framed onto the stream of its handler, anything else is ignored |
| ExitNode.ExitService.AllocIp | daemon/src/exit_node.rs:234-239 | the address encodes the counter, which then wraps at 16 bits |
| ExitNode.AddressOctets | daemon/src/exit_node.rs:234-239 | the i-th forwarded packet gets 10.200 and the two bytes of 2 + i modulo 65,536, the high one first |
| ExitNode.ExitService.RegisterStream | daemon/src/exit_node.rs:241-248 | the handler gets a new empty stream |
| ExitNode.RoutesAreLatest | daemon/src/exit_node.rs:180-222 | after any events each address routes to the latest packet that was given it |
| ExitNode.AddressesRepeat | daemon/src/exit_node.rs:234-239 | two packets share an address if and only if their numbers are equal modulo 65,536 |
| ExitNode.RouteLasts | daemon/src/exit_node.rs:180-239 | a packet's address routes to it until the counter has come round |
| ExitNode.RouteReplaced | daemon/src/exit_node.rs:180-239 | after that it routes to a later packet with the same remainder |
| ExitNode.StreamCarriesReplies | daemon/src/exit_node.rs:112-156 | a handler's stream is the framing of exactly the replies routed to it since it registered |
| ExitNode.RepliesExactly | daemon/src/exit_node.rs:112-156 | the replies to a handler answer exactly the tunnel packets whose destination was last given to a packet of that handler, once each and in order, with that packet's connection, the payload, its checksum and constant other fields |
| ExitNode.RepliesArrive | daemon/src/exit_node.rs:98-156 | from the tunnel to the handler, replies are dispatched in order and nothing else, however the stream is cut |
| XorMask.GenerateMask | crates/obfuscation/src/xor_mask.rs:31-50 | the loop yields the low bytes of the generator's states after the seed |
| XorMask.StepIsXorshift | crates/obfuscation/src/xor_mask.rs:43-45 | a step is the three shift-and-xors by 13 left, 7 right and 17 left on 64-bit words |
| XorMask.MaskOfSeedOne | crates/obfuscation/src/xor_mask.rs:31-50 | the first four mask bytes for window 5 and key 4 |
| XorMask.XorScalar | crates/obfuscation/src/xor_mask.rs:87-91 | in place, each byte covered by the mask is xored and the others stay |
| XorMask.MaskedByte | crates/obfuscation/src/xor_mask.rs:87-91 | each bit under the mask is set if and only if it differs from the mask's, and bytes past the mask stay |
| XorMask.XorBlocked | crates/obfuscation/src/xor_mask.rs:96-143 | for every block width and length the blocked loop with its tail equals the scalar loop |
| XorMask.ApplyInPlace | crates/obfuscation/src/xor_mask.rs:53-56 | the buffer is masked with the mask of the current window |
| XorMask.UnstepOfStep | crates/obfuscation/src/xor_mask.rs:43-45 | a generator step can be undone, so stepping is injective |
| XorMask.StepOfUnstep | crates/obfuscation/src/xor_mask.rs:43-45 | every state is the successor of one, so stepping is surjective |
| XorMask.SeedsNeverMerge | crates/obfuscation/src/xor_mask.rs:39-47 | states at any position are equal if and only if the seeds are |
| XorMask.ZeroOnlyFromZero | crates/obfuscation/src/xor_mask.rs:39-47 | the all-zero state is reached if and only if the seed is zero |
| XorMask.StateLinear | crates/obfuscation/src/xor_mask.rs:43-45 | the state at any position is linear in the seed over XOR |
| XorMask.MaskDeterminesSeed | crates/obfuscation/src/xor_mask.rs:36-47 | masks of nine or more bytes are equal if and only if their seeds are |
| XorMask.EightBytesAreNotEnough | crates/obfuscation/src/xor_mask.rs:36-47 | two different seeds share their first eight mask bytes |
| XorMask.UnmaskInWindow | crates/obfuscation/src/xor_mask.rs:59-64 | masking twice in one window is the identity for every length |
| XorMask.UnmaskOnlyInWindow | crates/obfuscation/src/xor_mask.rs:31-64 | for nine or more bytes, masking twice restores the data if and only if the time window is the same |
| XorMask.UnmaskOnlyWithSeed | crates/obfuscation/src/xor_mask.rs:31-64 | with different keys as well, nine or more bytes are restored if and only if window xor key is the same at both ends |
| XorMask.MaskedPrefix | crates/obfuscation/src/xor_mask.rs:31-64 | shorter masks are prefixes of longer ones, so a prefix of masked data is the masked prefix |
| Padding.Pad | crates/obfuscation/src/padding.rs:126-144 | the loop builds length field, payload and noise |
| Padding.PaddedBytes | crates/obfuscation/src/padding.rs:126-144 | every byte of a packet: the length lowest byte first, the payload, the drawn noise |
| Padding.UnpadPadded | crates/obfuscation/src/padding.rs:126-160 | unpadding restores the payload if and only if its length is under 2^32 |
| Padding.UnpadAccepts | crates/obfuscation/src/padding.rs:147-160 | on any bytes, what unpadding accepts and returns |
| Padding.PaddedLength | crates/obfuscation/src/padding.rs:72-128 | the output is 4 + max(length, target) bytes long, with the target within a tenth of the base |
| Padding.BaseTargetExactly | crates/obfuscation/src/padding.rs:72-107 | the target before jitter is the first listed size above the length, else 16384, or a drawn size in range, raised to the minimum |
| Padding.DefaultBuckets | crates/obfuscation/src/padding.rs:4-54 | the buckets of the default strategy, written out |
| Padding.ObservableRandom | crates/obfuscation/src/padding.rs:88-116 | with random sizes and no jitter the lengths an observer can see are exactly one interval |
| Padding.ObservableInterval | crates/obfuscation/src/padding.rs:106-128 | the lengths an observer can see are exactly one interval |
| Padding.BucketsLookAlike | crates/obfuscation/src/padding.rs:72-128 | two lengths in a bucket have the same observable lengths if and only if both are at most the smallest jittered target |
| FrameCodec.FrameRoundTrip | crates/transport/src/frame_codec.rs:53-128 | decode inverts encode in one window, for every draw and any two compression settings, under 2^32 masked bytes |
| FrameCodec.EncodedIsMasked | crates/transport/src/frame_codec.rs:53-87 | an encoded frame is the flag and then, padded, the serialised and perhaps compressed bytes, each xored with the mask of the window |
| FrameCodec.EncodedNeedsSeed | crates/transport/src/frame_codec.rs:74-110 | from nine bytes up, what is under the padding is unmasked if and only if window xor key is the sender's |
| FrameCodec.DecodeExactly | crates/transport/src/frame_codec.rs:90-128 | what decoding makes of any bytes, with the exact condition of each error |
| FrameCodec.SendReceive | client/src/wss.rs:78-124 | the pad-then-mask pipeline of client and handler round-trips in one window |
| FrameCodec.SentIsMasked | client/src/wss.rs:78-96 | what is sent is the padded frame, each byte xored with the mask of the window |
| FrameCodec.ReceiveExactly | client/src/wss.rs:99-124 | what receiving makes of any bytes: a frame, a dropped message, or an error |
| FrameCodec.OtherWindowNeverUnmasks | client/src/wss.rs:78-110 | with the default padding, a receiver unmasks a message to what was padded if and only if it is in the sender's window |
| ReplayCache.Cache.CheckAndInsert | crates/crypto/src/replay.rs:25-39 | a key that has not expired is refused, any other is stored with a new expiry |
| ReplayCache.Cache.Contains | crates/crypto/src/replay.rs:42-48 | a key is contained exactly when a check would refuse it |
| ReplayCache.Cache.Cleanup | crates/crypto/src/replay.rs:51-54 | exactly the expired keys are dropped |
| ReplayCache.RememberedExactly | crates/crypto/src/replay.rs:25-54 | over every run, after a cleanup a key is remembered if and only if it was accepted less than one TTL ago |
| ReplayCache.Cache.Clear | crates/crypto/src/replay.rs:67-69 | everything is forgotten |
| ReplayCache.AcceptedExactly | crates/crypto/src/replay.rs:25-39 | over every run a key is accepted if and only if its last acceptance is at least one TTL old |
| ReplayCache.CleanupsAreInvisible | crates/crypto/src/replay.rs:51-54 | removing all cleanups from a run changes no answer |
| Authentication.Authenticator.Verify | daemon/src/auth.rs:83-111 | the checks happen in order, and the nonce is spent before the HMAC is checked |
| Authentication.VerifiedExactly | daemon/src/auth.rs:83-111 | over every run a request is accepted for a user if and only if it is timely, its nonce was not accepted in the last 120 s, its HMAC is right and its base names the user; each error has its exact condition |
| Authentication.DriftReported | daemon/src/auth.rs:90-92 | the reported drift is clock minus timestamp in 64 signed bits |
| Authentication.Authenticator.Create | daemon/src/auth.rs:59-75 | a server key that is not 32 bytes long is refused; otherwise nonces are remembered for 120 s and tokens for their TTL plus 60 s, and both caches are empty |
| Authentication.Authenticator.GenerateToken | daemon/src/auth.rs:114-140 | if signatures have the size that is split off a token, the token opens to this user, nonce and a validity of one TTL |
| Authentication.TokenOpensExactly | daemon/src/auth.rs:114-161 | a generated token opens to its payload if and only if the size split off is the size of a signature; otherwise it is refused as badly signed |
| Authentication.NoTokenOpens | daemon/src/auth.rs:143-155 | with the sizes in the program, 3293 split off and 3309 signed, every generated token is refused |
| Authentication.Authenticator.CleanUp | daemon/src/auth.rs:185-188 | both caches drop their expired keys |
| Authentication.CleanUpLeaves | daemon/src/auth.rs:185-188 | over every run a cleanup leaves exactly the nonces and token ids that would still be refused |
| Authentication.Authenticator.VerifyAndConsumeToken | daemon/src/auth.rs:143-182 | decoding, signature, expiry and reuse are checked in order with their errors |
| Authentication.OpenedExactly | daemon/src/auth.rs:143-161 | a token opens to a payload if and only if it is that payload's bytes and a verifying signature of the expected size; the two errors have their exact conditions |
| Authentication.ConsumedExactly | daemon/src/auth.rs:143-182 | over every run a token is accepted for the user it names if and only if it opens, has not expired, and the first 16 bytes of its nonce were not used within TTL plus 60 s; each error has its exact condition |
| Authentication.WindowIsAMinute | daemon/src/auth.rs:89-93 | in wrapping 64-bit arithmetic, two readings that accept one timestamp are at most 60 s apart |
| Authentication.NonceOnce | daemon/src/auth.rs:67-98 | over every run, requests with the same nonce and timestamp pass at most once |
| Authentication.TokenOnce | daemon/src/auth.rs:114-179 | over every run, a token issued in it is consumed at most once |
| Authentication.AMinuteIsTooLong | daemon/src/auth.rs:84-96 | if a call may take a minute between its clock readings, a request can pass twice |
| Authentication.AMinuteIsTooLongForTokens | daemon/src/auth.rs:143-179 | under the same delay a token is consumed when it is issued and again at the end of its validity |
| KeyRotation.KeyManager.Verify | daemon/src/key_rotation.rs:90-110 | the current key, or the previous one before it expires, verifies the signature |
| KeyRotation.KeyManager.Sign | daemon/src/key_rotation.rs:85-87 | with an ideal scheme the signature is accepted at once, and verifies with the current key only |
| KeyRotation.SignatureLastsExactly | daemon/src/key_rotation.rs:85-159 | after any further events the signature is accepted if and only if the key has not been rotated since, or once, less than a grace period ago |
| KeyRotation.KeyManager.ShouldRotate | daemon/src/key_rotation.rs:113-120 | a rotation is due when forced or when the current key is old enough |
| KeyRotation.KeyManager.ForceRotate | daemon/src/key_rotation.rs:123-125 | only the force flag changes |
| KeyRotation.KeyManager.Rotate | daemon/src/key_rotation.rs:130-159 | the current key becomes previous with a grace period from the first clock reading, the new key's age starts at the second, the force flag is cleared, and the new public key is returned |
| KeyRotation.KeyManager.CleanUp | daemon/src/key_rotation.rs:162-170 | only an expired previous key is dropped |
| KeyRotation.KeptExactly | daemon/src/key_rotation.rs:130-170 | over every run a cleanup leaves the previous key if and only if its grace period has not passed |
| KeyRotation.AcceptsExactly | daemon/src/key_rotation.rs:85-170 | over every run a signature verifies if and only if a key does that is current, or was replaced by the latest rotation less than the grace period ago |
| KeyRotation.SignatureVerifiesWhile | daemon/src/key_rotation.rs:85-110 | with an ideal scheme a signature of a key verifies exactly while that key is honoured |
| KeyRotation.CleanUpsAreInvisible | daemon/src/key_rotation.rs:162-170 | removing all cleanups from a run changes no present or later verdict |
| KeyRotation.DueExactly | daemon/src/key_rotation.rs:113-125 | a rotation is due if and only if one was forced since the last, or the key is old enough |
| ExitPool.ExitClient.Forward | crates/transport/src/exit_client.rs:88-122 | a packet is delivered only by a healthy client, and only a failed send marks it down |
| ExitPool.GroupPool.CheckAll | crates/transport/src/exit_pool.rs:175-192 | after a round of checks exactly the clients found up are healthy, and they are counted |
| ExitPool.DownUntilRevived | crates/transport/src/exit_client.rs:88-234 | over every run a client that is down stays down and gets no packet until a check finds it up or its stream opens |
| ExitPool.UpUntilDowned | crates/transport/src/exit_client.rs:88-234 | over every run a client that is up stays up until a send to it fails, a check finds it down or its stream is refused |
| ExitPool.ForwardAfterCheck | crates/transport/src/exit_pool.rs:141-192 | after a round of checks a packet goes through if and only if some client was found up and answers |
| ExitPool.GroupPool.Forward | crates/transport/src/exit_pool.rs:135-171 | the counter advances with wrap-around and the clients are tried from the start slot |
| ExitPool.Pool.Forward | crates/transport/src/exit_pool.rs:115-172 | the requested group or the default group serves the packet, and no other group changes |
| ExitPool.Pool.AddNode | crates/transport/src/exit_pool.rs:225-249 | the client goes to the end of its group, which is created if missing |
| ExitPool.EachOnce | crates/transport/src/exit_pool.rs:142-147 | slots are tried in cyclic order, each at most once |
| ExitPool.AttemptsExactly | crates/transport/src/exit_pool.rs:145-171 | the packet goes to the first working client, and exactly the clients tried before it whose send failed are marked down |
| ExitPool.ForwardExactly | crates/transport/src/exit_pool.rs:141-171 | forwarding fails if and only if no client is healthy and answers, else it goes through the first that does |
| ExitPool.ForwardInRun | crates/transport/src/exit_pool.rs:141-171 | over every run a forward goes through the first working client in cyclic order from the slot that the number of earlier forwards determines |
| ExitPool.CounterWraps | crates/transport/src/exit_pool.rs:142-142 | advancing the wrapping counter once for each call is addition modulo 2^64 |
| ExitPool.CounterCountsForwards | crates/transport/src/exit_pool.rs:142-142 | over every run the counter has advanced once for each forward and for nothing else |
| ExitPool.StartsDifferExactly | crates/transport/src/exit_pool.rs:142-142 | the start slots of n calls in a row, drawn from the advancing counter, differ if and only if it does not wrap among them or n divides 2^64 |
| Doh.BuildDohResponse | client/src/doh.rs:136-154 | the loop writes the count byte and one record for each address |
| Doh.ResponseBytes | client/src/doh.rs:136-154 | every byte of a response: the count modulo 256, then for each address the type 1 or 28 and its octets |
| Doh.ParseDohResponse | client/src/doh.rs:75-133 | the loop stays in bounds on any bytes and computes the parse, errors included |
| Doh.ParseInvertsBuild | client/src/doh.rs:75-154 | parsing a built response gives the first (length mod 256) addresses, or no results when that is zero |
| Doh.WholeAnswerExactly | client/src/doh.rs:75-154 | a list comes back whole if and only if it has 1 to 255 addresses |
| Doh.FoundFits | client/src/doh.rs:83-123 | on any bytes the addresses found are no more than the count and fit into the bytes |
| Doh.CutResponseExactly | client/src/doh.rs:83-123 | a response cut inside a record gives the addresses before it if and only if the octets left do not look like records: bytes 28, a 1 and four more |
| Doh.CutResponseMisread | client/src/doh.rs:92-117 | a cut response that is answered with an address never sent |

## Left out

- StorageEngine.StorageEngine.Upsert: the transaction-id and segment-id counters are unbounded numbers; their wrap-around after 2^64 draws is not modelled.
- EngineRuns.GetsAreLinearizable: the same counters are unbounded here; memory ordering is sequential consistency, and the index is a map with atomic operations, as the program uses it.
- Authentication.TokenOnce: consumption is considered after issue, which an unforgeable signature scheme guarantees; the size split off a token is a parameter, since with the program's own sizes no token is consumed at all.
- Authentication.Authenticator.Verify: the HMAC and the reading of the user id from the HMAC base are parameters.
- Authentication.NonceOnce: the claim is about one authenticator whose calls are serial; `check_and_insert` is one atomic call, although its check and its insert are separate, and the daemon builds a new authenticator for each connection request.
- ExitPool.GroupPool.Forward: health flags changed by other tasks while one forward is running are not modelled.
- RaftStorage.PersistentStorage.AppendEntryToLog: file I/O works; a failed write or sync is not modelled.
- RaftStorage.PersistentStorage.ReplicateToLog: entries are blank or carry a client request; entries that change the membership or point to a snapshot, whose types belong to a foreign crate, are not modelled.
- ExitPool.GroupPool.CheckAll: the round is over one group; the program makes it for each group in turn.
- Hard-state recovery is not claimed: the marker is written but never read back, as the model shows by resetting the hard state.
- Consensus itself, which lives in a foreign crate; snapshots and compaction, which are stubs; the B-link tree, which is a concurrent map in the code.
- Appending at a cursor that is not at the end is modelled by `Overwrite`; what such a log means is only stated after an entry that is too long.
- The normal distribution of packet sizes: its sample is an arbitrary number.
- HTTP, WebSocket, SOCKS5, TUN, QUIC, SSH and mTLS plumbing, DNS relay, database clients, metrics, CLI and management pages.
- Configuration merge, billing, decoy, noise and timing helpers, and geo-IP distance: each is a formula or a table without state.
