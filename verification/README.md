# SimNetLab: snapshot replication, modelled and proved

SimNetLab replicates an authoritative world to clients. Every tick the server takes a snapshot of its
entities, encodes it for each client as a full replacement or as a patch against a result it recorded
earlier, optionally compresses it, and cuts it into packets; the client reassembles packets that arrive
late, twice, out of order or not at all, decodes updates, and merges them into its own world. Around
that path stand the structures that feed it: the spatial grid, the nearest-neighbour heap, the index of
authoritative ids, the synthetic change scheduler, the evidence log and the control-message codecs.

The modules here model that code and prove what it is for. Code that updates objects or arrays in place
is a class or an array method proved to act on a specification function; the laws themselves are lemmas
about those functions. The modules named `...Rules` say what an operation does without those functions:
in the bytes, clock readings, flags and limits that go in and the fields that come out.

| files | component | main results |
|---|---|---|
| `EndToEnd` | server and client over a packet channel, packetization on or off, in every compression mode | the client's world shows exactly the snapshot the server recorded for the last applied sequence (`WorldAgreesWithServer`); when an arriving packet makes the client show its update, decided exactly (`CompletionShows`); once all packets of an update have arrived it is shown (`AllPacketsShow`, `FullReplaceShows`) |
| `PacketFormat`, `Reassembly`, `ReassemblyRules`, `ReassemblyRuns`, `ReassemblyLedger`, `ChunkBits`, `ReassemblyState` | packetization | invariant of all reachable states under arbitrary packets (`ReachableStates`), the fate of every packet in its nine numbers (`PacketExactly`), expiry over every run (`ExpiryInRuns`, `NoGroupOutlivesItsTime`), exact bytes (`GenuineRun`), completion if and only if all chunks arrive (`CompletesFromFirstChunk`), two conservation ledgers, and the buffer-and-bitset receiver refining it all (`AcceptGroupPacket`) |
| `Compression`, `CompressionRules` | compression envelope | what is enveloped and what is opened, in sizes (`CompressedExactly`, `OpenedExactly`), round trips, never larger, detection by magic exactly when it is unambiguous, composition with reassembly (`CompressedRun`) |
| `Records`, `BitPack`, `PipelineWire` | entity records | field masks lose nothing, canonical values come back, the bit-packed record is the octahedral record |
| `PipelineEncode`, `EncodeRules`, `IndexSelection`, `PipelineEncoder`, `IncrementalRounds` | encoder | when an update is emitted, of which kind, with which bytes and which recorded result (`EmittedExactly`, `KindExactly`, `EmittedBytes`, `ResultingExactly`); the imperative encoder computes the specified update; every emitted update is admitted in the format it was written (`EmittedUpdateAdmitted`); no entity waits longer than a round (`EveryIndexComesUp`) |
| `PipelineDecode`, `DecodeRules`, `PipelineRoundTrip`, `PipelineMeaning`, `PipelineRuns` | decoder and whole runs | admission on the bytes (`AdmittedExactly`), what acceptance says of them (`AcceptedStands`, `WholeDecoded`), the forward-only search equals a lookup, an accepted patch says exactly what its bytes say of its baseline (`AcceptedPatchMeaning`), decoding gives the encoder's update (`DecodeEncoded`), the chain of baselines agrees over every run (`ClientAgreesWithServer`), patches on what is shown keep every handle (`PatchesKeepHandles`) |
| `Snapshot`, `GameClient` | reconstruction and client merge | baseline minus deletes overridden by upserts; handles kept, nothing leaked (`AppliedMeaning`) |
| `SpatialCells`, `SpatialIndex`, `SpatialBuild`, `SpatialQuery` | spatial grid | counting sort, comparison sort and merged workers give one index (`BuildsAgree`, `WorkersAgree`), in the order of key, id and source (`BuildSpatialGridSerial`); when a box query is complete (`CompleteExactly`) |
| `NeighborHeap` | bounded neighbour heap | the k nearest in order and none nearer left out, independent of the visiting order (`SelectNeighbors`, `OrderIndependent`) |
| `AuthorityIndex`, `AuthorityRules`, `AuthorityHistory` | authoritative ids and rows | when each operation succeeds and what it does to the population (`SpawnExactly`, `DeleteExactly`, `AppendExactly`); the invariant over every sequence of spawns, deletes and appends; the capture cannot fail (`ReachableIndexes`, `Capture`); exactly when an id comes back (`SpawnRepeatsExactly`, `AppendRepeatsExactly`, `IssuedIncreaseExactly`) |
| `Synthetic`, `Arithmetic` | change scheduler | even service, bounded gaps, fields follow their last service |
| `CsvText`, `CsvWriter` | evidence log | rows read back under section 2 of RFC 4180; sticky failures; a prefix always, everything after a successful close |
| `SessionProtocol`, `AppProtocol`, `Bytes` | control messages | accepted if and only if the encoding of a valid message; no two decoders accept the same bytes |

## What the code does not promise everywhere

- Committing a group that is still incomplete leaves it retained at the watermark, where only stale
  packets reach it until it expires: `CommitKeepsStrictness` gives the exact condition, `CommitTooEarly`
  the runs. The client only commits groups that completed, so it never happens on the replication path
  (`WorldAgreesWithServer`).
- A raw fallback of bytes that begin with the envelope magic is taken for an envelope: lost if it is not a
  well-formed one (`MagicAloneIsLost`), delivered as its content if it is (`EnvelopeArrivesOpened`).
  `DetectExactly` gives the exact condition for all inputs. Neither packets nor updates begin with that
  magic (`PacketIsNoEnvelope`, `UpdateIsNoEnvelope`).
- Positions outside the grid bounds are filed in edge cells but a box or radius query whose box does not
  meet the bounds reports nothing: `QueryAabb`, `QueryRadius` and `CompleteExactly` give the condition,
  `OutOfBoundsIsMissed` and `OutOfBoundsBallIsMissed` the inputs.
- A spawn never returns a live id (`SpawnIsFresh`), but ids of deleted players can come back: to another
  player once the last id of all has been issued and an append restores the next id, to a boid whenever its
  id is below the next one or the last id of all has been issued. `SpawnRepeatsExactly`,
  `AppendRepeatsExactly` and `IssuedIncreaseExactly` give the exact conditions, `IdsComeBack` and `BoidTakesPlayersId` the runs.

## Model

| member | source | states |
|---|---|---|
| `Bytes.BigEndianRoundTrip` | src/core/import/core_bytes.cppm:27-47 | reading an integer written in network order gives it back, for every width and every value that fits |
| `Bytes.FromBigEndianRoundTrip` | src/core/import/core_bytes.cppm:75-129 | the bytes read are exactly the encoding of the value read, so no two byte strings decode alike |
| `Bytes.ReadWritten` | src/core/import/core_bytes.cppm:27-129 | a chain of reads over what a chain of writes produced gives all the values back, wherever in the buffer it stands |
| `Bytes.WriteRead` | src/core/import/core_bytes.cppm:75-129 | conversely, writing the values a chain of reads produced reproduces the bytes |
| `Bytes.ReadPrefix` | src/core/import/core_bytes.cppm:75-129 | a shorter chain of reads at the same place finds the first of the same values |
| `EndToEnd.WorldAgreesWithServer` | app/client/client_replication.cppm:609-616 | under all valid settings, packetization on or off, and in every compression mode, over every run of emissions, packet arrivals in any order and number, timeouts and evictions, the world shows exactly the snapshot recorded for the last applied sequence, which is the reassembler's watermark; every retained group is newer and made of what was sent |
| `EndToEnd.EmittedIsSent` | app/server/server_replication.cppm:1188-1398 | an emission is recorded and on its way under the sequence it used if and only if the server made an update, was told to commit it, could close it and could hand over every packet; otherwise the whole system is unchanged, and client and receiver are in any case |
| `EndToEnd.ClosedExactly` | app/server/server_replication.cppm:1198-1246 | without whole-update compression every update is handed on as it is; with it exactly those whose envelope, around the shorter of frame and update, fits the group limit |
| `EndToEnd.CompletionShows` | app/client/client_replication.cppm:815-870 | an arriving packet makes the client show its update if and only if it completes the group, the update is newer, its baseline is kept, its values are valid and the world takes it; with packetization a completion is always newer, without it every packet completes; otherwise the client is unchanged |
| `EndToEnd.OrderedCompletionShows` | app/client/client_replication.cppm:546-609 | when committed emissions have non-decreasing ticks and supported classifications the world never turns a newer update away, so the last of those conditions drops out |
| `EndToEnd.AllPacketsShow` | app/client/client_replication.cppm:767-870 | in every reachable state, a newer update of which nothing is retained, for which the reassembler has room, whose baseline is kept and whose values and tick are acceptable, is shown exactly as the server recorded it once all of its packets have arrived, in any order and number, none later than the timeout after the first |
| `EndToEnd.FullReplaceShows` | app/client/client_replication.cppm:470-609 | a newer full replacement whose packets all arrive in time is shown whatever baselines the client has lost and whatever it has missed, when ticks are ordered and classifications supported |
| `EndToEnd.StepKeeps` | app/client/client_replication.cppm:400-616 | the invariant behind it, kept by every emission, arrival and timer |
| `EndToEnd.GroupApplied` | app/client/client_replication.cppm:427-616 | the fate of one completed group at the client, decided exactly |
| `EndToEnd.InspectsAsItself` | app/client/client_replication.cppm:455-466 | the group-id mismatch refusal never fires: an update that passes inspection has its group's sequence |
| `EndToEnd.OpensWhatWasClosed` | app/server/server_replication.cppm:1198-1246 | whole-update compression is undone on the client, whichever encoding was chosen |
| `EndToEnd.ComesOffTheWire` | app/server/server_replication.cppm:338-380 | every packet of a sendable group, with a header or raw, arrives as it was serialized, in every compression mode |
| `EndToEnd.UpdateIsNoEnvelope` | src/compression/src/compression.cpp:225-234 | bytes that pass as an update never begin with the envelope magic, so a raw packet of an update is never taken for an envelope |
| `EndToEnd.PacketAccepted` | app/client/client_replication.cppm:794-815 | a genuine packet leaves only newer groups retained, and a completion carries the bytes sent; with packetization under their id, which is newer than what is shown; without it every packet completes |
| `PacketFormat.CeilingDivideUnique` | src/packetization/src/packetization.cpp:73-76 | the chunk count is the only one whose chunks cover a group with none of them empty |
| `PacketFormat.ChunkRanges` | src/packetization/src/packetization.cpp:436-438 | chunks of different indices occupy disjoint ranges in index order, every chunk but the last is full |
| `PacketFormat.PreparedExactly` | src/packetization/src/packetization.cpp:334-397 | under valid settings preparation never throws and refuses exactly a zero id, an empty or oversized group, or a raw group over the payload limit: the chunk-count and 32-bit refusals cannot fire |
| `PacketFormat.PreparedNumbers` | src/packetization/src/packetization.cpp:334-397 | what preparation reports, in numbers: the count whose chunks cover the group with none empty, 25 header bytes a chunk, their sum with the bytes; a refusal reports the size only once it was measured |
| `PacketFormat.HeaderReadExactly` | src/packetization/src/packetization.cpp:38-51 | the first 25 bytes of any packet are the encoding of the header read from them |
| `PacketFormat.ReadWrittenHeader` | src/packetization/src/packetization.cpp:439-452 | a written header occupies 25 bytes and is read back, whatever payload follows |
| `PacketFormat.SerializeGroupChunk` | src/packetization/src/packetization.cpp:399-459 | throws exactly when the settings or the prepared metadata are inconsistent; otherwise returns header plus the chunk's slice, or the raw group when packetization is off |
| `PacketFormat.PreparedSerializes` | src/packetization/src/packetization.cpp:405-430 | what preparation produced is never refused by the serializer under the same settings |
| `PacketFormat.SerializesExactlyThePrepared` | src/packetization/src/packetization.cpp:399-430 | the serializer accepts metadata if and only if preparing the same bytes under the same id gives that metadata again and the chunk index is below its count |
| `PacketFormat.PacketBytes` | src/packetization/src/packetization.cpp:431-459 | the bytes of every packet: nine big-endian numbers, magic, versions, kind, id, index, count, size and length, then the slice of the group they announce; the group itself without packetization |
| `PacketFormat.GenuinePacketParses` | src/packetization/src/packetization.cpp:527-549 | the receiver reads from a genuine packet the header the sender meant, every consistency check passes, and the bytes behind it are the chunk |
| `ChunkBits.MarkSetsOne` | src/packetization/src/packetization.cpp:89-103 | marking a chunk sets its bit in the word array and leaves every other chunk's bit alone |
| `Reassembly.FindIsFirst` | src/packetization/src/packetization.cpp:108-109 | the group found is the first with that id |
| `Reassembly.RetainKeeps` | src/packetization/src/packetization.cpp:468-475 | expiry and commit keep exactly the groups that qualify, in no more bytes and with ids still distinct |
| `Reassembly.StepInv` | src/packetization/src/packetization.cpp:480-581 | any packet, well formed or not, any clock reading and any commit keeps: ids distinct and not below the watermark, fewer chunks than the count, each chunk of its right length, report totals equal to the real sums, both resource limits |
| `Reassembly.RunInv` | src/packetization/src/packetization.cpp:461-581 | the same over every run of such events |
| `ReassemblyRules.SettingsExactly` | src/packetization/src/packetization.cpp:288-332 | settings are accepted if and only if they lie within the numeric bounds and, with packetization, the payload holds more than a header and the chunks hold the largest group |
| `ReassemblyRules.ExpiryExactly` | src/packetization/src/packetization.cpp:461-478 | an expiry keeps exactly the groups first received less than the timeout ago, or later than now, and raises the expired count by the number of the others |
| `ReassemblyRules.ExpiryInRuns` | src/packetization/src/packetization.cpp:461-490 | after any run, a packet or an expiry at a time leaves no group whose age has reached the timeout, an expiry drops no other group, and both count exactly those whose age had |
| `ReassemblyRules.NoGroupOutlivesItsTime` | src/packetization/src/packetization.cpp:461-490 | over every run, each group still retained was first received with one of the packets, and at no packet or expiry since had its age reached the timeout |
| `ReassemblyRules.InTimeAfterPacket` | src/packetization/src/packetization.cpp:480-490 | whatever was retained before, no packet leaves a group whose age has reached the timeout |
| `ReassemblyRules.CommitExactly` | src/packetization/src/packetization.cpp:566-581 | the watermark becomes the larger of the two ids, and exactly the groups not below a newer one stay |
| `ReassemblyRules.PacketExactly` | src/packetization/src/packetization.cpp:480-564 | one packet, in the nine numbers it carries: it acts as an expiry at its time, then its numbers decide in order whether it is invalid, dropping the group it names and no other, or stale, changing no group, or reaches its group, where other metadata or other bytes drop the group, equal bytes change nothing, a missing chunk is filed and the last one completes it, and a new group is refused exactly when either limit would be passed; every counter moves by what the result says |
| `ReassemblyRuns.ReachableStates` | src/packetization/src/packetization.cpp:461-587 | every state reachable from the empty one has those properties and is within the configured budgets |
| `ReassemblyRuns.CommitKeepsStrictness` | src/packetization/src/packetization.cpp:566-581 | a commit keeps every retained id strictly above the watermark if and only if it is not newer or names no group that is still retained |
| `ReassemblyRuns.CommitTooEarly` | src/packetization/src/packetization.cpp:566-581 | the failing case from the empty state, for all settings with packetization and all groups of several chunks: one chunk, a commit of its id, and the group stays retained at the watermark while its chunks are stale |
| `ReassemblyRuns.CommitTooEarlyOnce` | src/packetization/src/packetization.cpp:566-581 | one such run written out: a two-byte group in two chunks |
| `ReassemblyRuns.AcceptKeepsStrictness` | src/packetization/src/packetization.cpp:480-564 | packets and expiry keep ids strictly above the watermark, a completed group is no longer retained, and committing it keeps strictness |
| `ReassemblyRuns.AssembleAll` | src/packetization/src/packetization.cpp:254-273 | the chunks of a group put side by side in index order are the group |
| `ReassemblyRuns.GenuineStep` | src/packetization/src/packetization.cpp:480-581 | on genuine packets, with a header or raw, one event acts on the retained groups exactly as on a table from id to chunks received, with the reported result determined by it |
| `ReassemblyRuns.RunRefinesTable` | src/packetization/src/packetization.cpp:480-581 | whole runs refine that table machine, order of groups and counters forgotten |
| `ReassemblyRuns.GenuineRun` | src/packetization/src/packetization.cpp:334-564 | under all valid settings, over every lossy, reordered, duplicated interleaving of genuine packets of any number of groups, with any expiry and commits, nothing is called invalid and every completion carries the bytes, chunk count and packet-byte total prepared for the group its packet belongs to; with packetization off every packet completes |
| `ReassemblyRuns.CompletesExactly` | src/packetization/src/packetization.cpp:226-283 | a retained group completes during a run undisturbed by timeout or commit if and only if its missing chunks are all delivered |
| `ReassemblyRuns.CompletesFromFirstChunk` | src/packetization/src/packetization.cpp:166-283 | from its first chunk on, a group not refused for limits completes if and only if every chunk is delivered before timeout or supersession |
| `ReassemblyRuns.RoomAdmits` | src/packetization/src/packetization.cpp:197-209 | with a free slot and room for its bytes beside the retained ones, no chunk is refused for limits, whatever expires at that moment |
| `ReassemblyLedger.PacketsConserved` | src/packetization/src/packetization.cpp:480-564 | over every run received packets = unique + duplicate + stale + invalid + refused for limits |
| `ReassemblyLedger.GroupsConserved` | src/packetization/src/packetization.cpp:166-283 | with packetization on, groups admitted = completed + expired + rejected while retained + superseded by commit + still retained |
| `ReassemblyImplementation.FileChunk` | src/packetization/src/packetization.cpp:254-260 | copying a payload to its offset and setting its bit adds exactly that chunk to the abstract group and no other |
| `ReassemblyImplementation.FullBuffer` | src/packetization/src/packetization.cpp:261-273 | once the received count reaches the chunk count the buffer is the assembled group |
| `ReassemblyImplementation.EraseIf` | src/packetization/src/packetization.cpp:468-475 | erasing in place leaves the qualifying groups in order |
| `ReassemblyImplementation.ReassemblyState.UpdateCurrentReport` | src/packetization/src/packetization.cpp:78-87 | recomputes both totals from the groups, with the 32-bit narrowing, and touches nothing else |
| `ReassemblyImplementation.ReassemblyState.EraseIncompleteGroup` | src/packetization/src/packetization.cpp:105-117 | drops the group if it is there and refreshes the totals, otherwise changes nothing |
| `ReassemblyImplementation.ReassemblyState.RejectGroup` | src/packetization/src/packetization.cpp:119-129 | drops at most the offending group, counts one invalid packet and reports the reason |
| `ReassemblyImplementation.ReassemblyState.AcceptRawGroup` | src/packetization/src/packetization.cpp:131-158 | with packetization off a packet within bounds completes at once as itself; otherwise it is invalid |
| `ReassemblyImplementation.ReassemblyState.AdmitIncompleteGroup` | src/packetization/src/packetization.cpp:166-224 | finds the group, makes room within the two limits, or reports metadata conflict or limit refusal, as the abstract machine does |
| `ReassemblyImplementation.ReassemblyState.AcceptRepeatedChunk` | src/packetization/src/packetization.cpp:234-252 | a repeated chunk is a duplicate when its bytes agree and drops the group when they do not |
| `ReassemblyImplementation.ReassemblyState.AcceptValidatedChunk` | src/packetization/src/packetization.cpp:226-283 | buffer, bitset and count refine the abstract filing of one chunk, completion included |
| `ReassemblyImplementation.ReassemblyState.FinishGroup` | src/packetization/src/packetization.cpp:266-283 | hands over the buffer as the assembled group, with byte total and chunk count, and forgets the group |
| `ReassemblyImplementation.ReassemblyState.AcceptRead` | src/packetization/src/packetization.cpp:496-549 | the header checks in the order of the code, each with its own effect on state and result |
| `ReassemblyImplementation.ReassemblyState.ExpireIncompleteGroups` | src/packetization/src/packetization.cpp:461-478 | afterwards exactly the groups first received less than the timeout ago, or later than now, are retained, and the expired count has grown by the others |
| `ReassemblyImplementation.ReassemblyState.AcceptGroupPacket` | src/packetization/src/packetization.cpp:480-564 | throws without change on invalid settings; otherwise no group whose age has reached the timeout is left, and state and result are those of the abstract machine, for which `ReassemblyRules.PacketExactly` and the run theorems hold |
| `ReassemblyImplementation.ReassemblyState.CommitReassembledGroup` | src/packetization/src/packetization.cpp:566-581 | raises the watermark and drops the groups below it; an old commit changes nothing |
| `ReassemblyImplementation.ReassemblyState.ClearReassemblyState` | src/packetization/src/packetization.cpp:583-586 | afterwards the state is the empty one |
| `Compression.CompressBytes` | src/compression/src/compression.cpp:236-331 | valid exactly when input, limits, level, policy and frame allow it; writes the envelope or the raw fallback the policy calls for, and leaves the output alone when it refuses |
| `CompressionRules.CompressedExactly` | src/compression/src/compression.cpp:236-331 | what may be compressed and what leaves the compressor, in sizes: under Always an envelope around the shorter of frame and input, if it fits; under OnlyWhenSmaller an envelope around the frame if that saves bytes and fits, otherwise the input if that fits |
| `CompressionRules.OpenedExactly` | src/compression/src/compression.cpp:333-415 | an envelope is opened if and only if its six numbers stand within the limits and, where it holds a frame, that is one whole frame of the announced size; it gives its payload or the content of the frame |
| `CompressionRules.DetectedExactly` | app/client/client_replication.cppm:741-786 | by the first four bytes alone: the content of an envelope that holds a frame, nothing for any other envelope, all other bytes as they are |
| `CompressionRules.PacketSentExactly` | app/server/server_replication.cppm:338-380 | under the payload limit a packet can be given to the transport if and only if the codec takes it, and then in no more bytes |
| `Compression.ReadWrittenEnvelope` | src/compression/src/compression.cpp:32-75 | the envelope is 17 bytes plus payload, is detected by its magic, and its header is read back |
| `Compression.DecompressBytes` | src/compression/src/compression.cpp:333-415 | the checks one after the other open exactly the envelopes specified, and leave the output alone when they refuse |
| `Compression.EnvelopeRoundTrip` | src/compression/src/compression.cpp:333-415 | every envelope, raw or compressed, under either policy, decompresses to the input at every receiver whose limits admit it |
| `Compression.NeverLarger` | src/compression/src/compression.cpp:236-331 | OnlyWhenSmaller never enlarges, and an envelope is used exactly when it saves bytes |
| `Compression.DetectRoundTrip` | src/compression/src/compression.cpp:225-234 | detection by magic then decompression undoes OnlyWhenSmaller unless the input starts with the envelope magic and was sent raw |
| `Compression.DetectExactly` | app/client/client_replication.cppm:741-786 | for every input: detection undoes OnlyWhenSmaller if and only if the input lacks the magic, or its frame with the header is shorter than it, or it is a well-formed envelope whose frame decompresses to the envelope itself |
| `Compression.EnvelopeArrivesOpened` | app/client/client_replication.cppm:741-786 | an envelope that does not shrink further is sent as it is and arrives as its content, other and more bytes, without a refusal |
| `Compression.EnvelopeArrivesOpenedOnce` | app/client/client_replication.cppm:741-786 | one such input under a concrete lawful codec: nineteen zeros in an envelope of eighteen bytes |
| `Compression.MagicAloneIsLost` | src/compression/src/compression.cpp:225-331 | a concrete such input: the four magic bytes are sent as they are and refused by the receiver |
| `Compression.PacketIsNoEnvelope` | src/packetization/src/packetization.cpp:439-441 | a genuine packet never starts with the envelope magic |
| `Compression.WirePacket` | app/server/server_replication.cppm:338-380 | per-packet compression never takes more of the wire than the packet, and hands the receiver the serialized packet byte for byte if and only if the group survives, which with packetization it always does |
| `Compression.CompressedRun` | app/server/server_replication.cppm:338-380 | so for surviving groups, with headers or raw, in any arrival order the reassembler sees the events of the uncompressed run and completes groups with exactly the bytes prepared |
| `Snapshot.TableDetermines` | src/snapshot/import/snapshot_reconstruct.cppm:42-49 | a snapshot's rows are determined by its contents: ascending rows with equal tables are equal |
| `Snapshot.MergeEntry` | src/snapshot/import/snapshot_reconstruct.cppm:63-104 | the fate of every id: upserted, else kept unless deleted, also when it is both deleted and upserted |
| `Snapshot.MergeAscending` | src/snapshot/import/snapshot_reconstruct.cppm:63-104 | the merged ids ascend strictly |
| `Snapshot.MergeMeaning` | src/snapshot/import/snapshot_reconstruct.cppm:63-104 | reconstruction is the baseline minus the deletes, overridden by the upserts, in id order |
| `Snapshot.SkipBelow` | src/snapshot/import/snapshot_reconstruct.cppm:78-84 | the delete cursor finds an id exactly when it is among the deletes |
| `Snapshot.MergeWithCursors` | src/snapshot/import/snapshot_reconstruct.cppm:60-104 | the loop over three forward cursors computes that merge |
| `Snapshot.ReconstructWorldSnapshot` | src/snapshot/import/snapshot_reconstruct.cppm:24-109 | a Patch without a baseline is refused and leaves the destination alone; otherwise it becomes the reconstruction |
| `GameClient.ApplyFrame` | src/game_client/src/game_client.cpp:148-207 | the merge keeps handles distinct, leaves foreign entities untouched, and the entities alive afterwards are the listed ones plus the foreign ones: none leaked, none lost |
| `GameClient.ApplyShows` | src/game_client/src/game_client.cpp:148-207 | what the world shows after the merge is the snapshot merge of what it showed |
| `GameClient.ApplyKeepsHandles` | src/game_client/src/game_client.cpp:161-195 | an id that was there and is not deleted keeps its entity handle; every other id gets a new one |
| `GameClient.ApplyMeaning` | src/game_client/src/game_client.cpp:148-207 | together: consistent world, ids ascending, contents = current minus deletes overridden by upserts, handles kept |
| `GameClient.AppliedMeaning` | src/game_client/src/game_client.cpp:240-277 | the same for the entry point, FullReplace included, with the tick remembered |
| `GameClient.AppliedExactly` | src/game_client/src/game_client.cpp:240-277 | any update: an older tick or a classification other than 1 and 2 changes nothing; otherwise the contents become, id by id, the old ones minus deletes overridden by upserts, or the upserts alone |
| `GameClient.PatchKeepsHandles` | src/game_client/src/game_client.cpp:161-207 | a patch that deletes nothing it upserts keeps the handle of every id shown before and after |
| `GameClient.ClientWorld.DeleteMatches` | src/game_client/src/game_client.cpp:98-114 | the moving delete cursor answers membership exactly |
| `GameClient.ClientWorld.InsertBefore` | src/game_client/src/game_client.cpp:165-172 | inserting the upserts before the next row leaves the outcome of the whole merge unchanged |
| `GameClient.ClientWorld.ApplyPatchToWorld` | src/game_client/src/game_client.cpp:148-207 | the loop over three cursors and the live entities yields the outcome the lemmas are about |
| `GameClient.ClientWorld.ApplyFullReplaceToWorld` | src/game_client/src/game_client.cpp:209-231 | every old entity is deleted and the upserts are made anew |
| `GameClient.ClientWorld.ApplyClientSnapshotPatchUnchecked` | src/game_client/src/game_client.cpp:240-277 | valid if and only if the tick is not older and every upsert is a boid or a player; then the update is applied, otherwise nothing changes; the report counts the rows before and after |
| `Records.MaskRoundTrip` | src/pipeline/private/pipeline_records.cppm:261-289 | field masks and selector bytes are inverse, an existing record's selector is never the spawn selector, and the valid selectors are the nonempty masks |
| `Records.MaskSuffices` | src/pipeline/private/pipeline_records.cppm:243-289 | overwriting the baseline with only the fields the mask selects gives the current entity, and the mask is empty exactly when nothing changed |
| `Records.RecordWrittenBytes` | src/pipeline/private/pipeline_records.cppm:464-505 | a whole record has the byte count of its layout, in every combination of quantization and octahedral heading |
| `Records.ReadWrittenFields` | src/pipeline/private/pipeline_records.cppm:579-636 | reading the selected fields overwrites exactly those with the canonical values and stops right behind them |
| `Records.ReadWrittenRecord` | src/pipeline/private/pipeline_records.cppm:639-702 | reading a written record gives the canonical entity and stops right behind it |
| `BitPack.BigEndianBits` | src/pipeline/private/pipeline_bitpack.cppm:27-44 | bytes in network order spell the number's bits most significant first |
| `BitPack.BitWriter.WriteBits` | src/pipeline/private/pipeline_bitpack.cppm:27-44 | appends exactly the low bits of the value, most significant first, wherever in a byte the writer stands |
| `BitPack.BitWriter.FlushBits` | src/pipeline/private/pipeline_bitpack.cppm:47-58 | pads the last byte with zero bits, and does nothing on a byte boundary |
| `BitPack.BitReader.ReadBits` | src/pipeline/private/pipeline_bitpack.cppm:71-91 | the number the next bits spell; refused without moving when they run out |
| `BitPack.StreamRoundTrip` | src/pipeline/private/pipeline_bitpack.cppm:27-91 | any value that fits its width is read back from between any other bits, aligned or not |
| `BitPack.AlignedRead` | src/pipeline/private/pipeline_bitpack.cppm:71-91 | from a byte boundary, whole bytes of bits are the big-endian number |
| `BitPack.OctRecord` | src/pipeline/private/pipeline_records.cppm:397-410 | the field list of the packed record concatenates to the octahedral record |
| `BitPack.WriteBitpackedRecord` | src/pipeline/private/pipeline_records.cppm:397-410 | the bit-packed record is byte for byte the octahedral-heading record |
| `BitPack.OctRead` | src/pipeline/private/pipeline_records.cppm:413-461 | reading that record succeeds exactly when 16 bytes remain and takes each field from its bytes |
| `BitPack.ReadBitpackedRecord` | src/pipeline/private/pipeline_records.cppm:413-461 | bit-packed reading gives what the plain reading of the same bytes gives |
| `PipelineWire.ReadWrittenUpdateHeader` | src/pipeline/private/pipeline_wire.cppm:137-183 | a written update header has the fixed size and is read back, whatever payload follows |
| `PipelineWire.ReadHeaderFits` | src/pipeline/private/pipeline_wire.cppm:161-183 | every header that can be read has fields within their widths |
| `PipelineWire.AdmittedExactly` | src/pipeline/src/pipeline_decode.cpp:83-206 | a header is admitted if and only if the techniques can be decoded and its eleven numbers stand: magic, versions and this pipeline's signature, kind 0 or 1, a newer nonzero sequence, the payload length behind 45 bytes, no baseline or, for a Patch under a technique that makes one, an earlier one, and the payload size that the counts and the record format say |
| `PipelineWire.AdmittedBegins` | src/pipeline/src/pipeline_decode.cpp:111-130 | the first four numbers of an admitted update are the format's magic, its versions and this pipeline's signature |
| `PipelineEncode.PlanFacts` | src/pipeline/src/pipeline_encode.cpp:297-321 | a Patch is decided if and only if nothing is forced and a Delta baseline is at hand, the level of detail is seeded, or a seeded incremental round goes on without either; it carries an earlier nonzero baseline, a full replacement none |
| `EncodeRules.KindExactly` | src/pipeline/src/pipeline_encode.cpp:475-485 | of the emitted update: it is a Patch if and only if nothing is forced and one of those three cases holds, and names the baseline of the caller in the first two, the replica in the third, and none otherwise, under the next sequence and the tick of the snapshot |
| `EncodeRules.EmittedExactly` | src/pipeline/src/pipeline_encode.cpp:151-344 | skipped exactly between the ticks of the interval; otherwise emitted, within 32-bit sizes, if and only if definition, arguments and encoder state allow it, every condition in the flags and numbers of the call; what is not emitted leaves the state unchanged |
| `EncodeRules.SentExactly` | src/pipeline/src/pipeline_encode.cpp:345-470 | an entity is among the upserts if and only if its turn has come or its recovery was asked for, where turns apply, and a Delta baseline does not already hold what it would be decoded to; the upserts ascend |
| `EncodeRules.EmittedBytes` | src/pipeline/src/pipeline_encode.cpp:472-581 | the bytes of every emitted update: the header numbers, the ids the baseline has and the population has not, ascending, and the records of exactly the entities to be sent, field-masked only against a Delta baseline |
| `EncodeRules.HeaderNumbers` | src/pipeline/src/pipeline_encode.cpp:504-518 | read back from the bytes: kind, tick, sequence, baseline sequence, and as many upserts as there are entities to be sent, which under Delta without forcing are only entities of whose decoded form the baseline holds no copy |
| `EncodeRules.ResultingExactly` | src/pipeline/src/pipeline_encode.cpp:583-601 | the recorded snapshot, entity by entity: what was taken is there as it decodes, what was not is as the baseline had it, if it did, and nothing outside the population is there |
| `EncodeRules.StateAfter` | src/pipeline/src/pipeline_encode.cpp:634-658 | the state left behind: the next sequence, a technique seeded by its full replacement, the cursor behind the slice taken or where the level of detail says, and otherwise unchanged |
| `EncodeRules.WholeRecordBytes` | src/pipeline/private/pipeline_records.cppm:93-235 | a whole record as bytes in each layout: id, classification, position, heading, hue, as bits or as the transforms make them |
| `EncodeRules.MaskedRecordBytes` | src/pipeline/private/pipeline_records.cppm:261-289 | a field-masked record: 128 and all fields for a spawn; for a known entity a bit and a field exactly where its decoded form differs from the baseline |
| `PipelineEncode.ChangedAscending` | src/pipeline/private/pipeline_selection.cppm:243-345 | the selected records ascend, come from the population, and each is one the baseline does not hold |
| `PipelineMeaning.ChangedTable` | src/pipeline/private/pipeline_selection.cppm:243-345 | and conversely none is missed: an id is selected if and only if the population has it with a canonical value the baseline does not hold |
| `PipelineEncode.RemovedExactly` | src/pipeline/private/pipeline_selection.cppm:348-382 | an id is deleted exactly when the baseline has it and the population does not |
| `PipelineEncode.PayloadLength` | src/pipeline/src/pipeline_encode.cpp:487-504 | the payload length equals, or for field masks lies between, what the header's counts imply to the decoder |
| `PipelineEncode.EmittedUpdateAdmitted` | src/pipeline/src/pipeline_decode.cpp:83-206 | every emitted update passes header inspection at any client on the same pipeline with an older sequence, and the decoder picks the body format the encoder wrote |
| `IndexSelection.SortStrict` | src/pipeline/private/pipeline_selection.cppm:120-145 | sorting a round-robin slice restores strict id order after the cursor wraps |
| `IndexSelection.DedupeStrict` | src/pipeline/private/pipeline_selection.cppm:148-169 | sort then unique gives strictly ascending indices |
| `IndexSelection.AnyListPicks` | src/pipeline/private/pipeline_selection.cppm:120-169 | any strictly ascending list of the chosen indices selects the same entities as the set of them |
| `IndexSelection.RoundFresh` | src/pipeline/private/pipeline_selection.cppm:120-145 | one round never visits an index twice |
| `PipelineEncoder.DeltaMeaning` | src/pipeline/private/pipeline_selection.cppm:243-345 | preparing records one entity at a time gives the count, bytes and canonical upserts of the filtered population |
| `PipelineEncoder.PipelineScratch.SelectIncrementalIndices` | src/pipeline/private/pipeline_selection.cppm:120-145 | a strictly ascending list of exactly the slice, of min(count, maximum) indices |
| `PipelineEncoder.PipelineScratch.MergeRecoveryUpsertIndices` | src/pipeline/private/pipeline_selection.cppm:148-169 | adds exactly the present recovery ids, order strict, nothing lost |
| `PipelineEncoder.PipelineScratch.SelectRemovedEntityIds` | src/pipeline/private/pipeline_selection.cppm:348-382 | two forward cursors find the baseline ids the population lacks |
| `PipelineEncoder.PipelineScratch.ConsiderRecord` | src/pipeline/private/pipeline_selection.cppm:293-330 | at the cursor an entity is retained exactly when a lookup by id says the baseline does not hold its canonical value, with the record that says so |
| `PipelineEncoder.PipelineScratch.FilterScheduledDeltaRecords` | src/pipeline/private/pipeline_selection.cppm:391-467 | in-place filtering of the scheduled indices with a forward-only baseline cursor equals per-id filtering, and the deletes are the removed ids |
| `PipelineEncoder.PipelineScratch.SelectDeltaRecords` | src/pipeline/private/pipeline_selection.cppm:243-345 | the two-cursor pass over population and baseline equals per-id filtering of the whole population |
| `PipelineEncoder.PipelineScratch.ScheduleUpserts` | src/pipeline/src/pipeline_encode.cpp:339-418 | the scheduled stage selects exactly the eligible entities, and without Delta the removed ids |
| `PipelineEncoder.PipelineScratch.SelectUpdate` | src/pipeline/src/pipeline_encode.cpp:339-461 | after both stages the scratch holds exactly the upserts and deletes of the plan, whatever it held before |
| `PipelineEncoder.PipelineScratch.PrepareAndWriteRecords` | src/pipeline/src/pipeline_encode.cpp:545-581 | writes whole records and collects their canonical entities in step |
| `PipelineEncoder.PipelineScratch.WriteUpdate` | src/pipeline/src/pipeline_encode.cpp:506-581 | header, deletes and records in order, and the logical update that describes them |
| `PipelineEncoder.ClientState.EncodeSnapshotUnchecked` | src/pipeline/src/pipeline_encode.cpp:151-659 | the imperative encoder computes the outcome and next state that the meaning and run theorems are about, errors in the order of the code |
| `PipelineDecode.LowerBound` | src/pipeline/src/pipeline_decode.cpp:382-387 | binary search from the cursor finds the first id not below the wanted one |
| `PipelineDecode.LowerBoundIsLookup` | src/pipeline/src/pipeline_decode.cpp:381-397 | the forward-only search finds an id exactly when a plain lookup by id does, and the same entity |
| `PipelineDecode.ReadDeletes` | src/pipeline/src/pipeline_decode.cpp:336-344 | reads the delete ids or reports truncation |
| `PipelineDecode.ReadWhole` | src/pipeline/src/pipeline_decode.cpp:348-359 | reads whole records or reports truncation |
| `PipelineDecode.ReadMasked` | src/pipeline/src/pipeline_decode.cpp:361-412 | one masked record read with the moving cursor equals the per-id reading, with every refusal, and the cursor has passed only ids not above it |
| `PipelineDecode.ReadMaskedAll` | src/pipeline/src/pipeline_decode.cpp:346-413 | the loop with the moving cursor equals per-id decoding of all records |
| `PipelineDecode.MaskedRecordMeaning` | src/pipeline/src/pipeline_decode.cpp:361-412 | a record that is read stands in the bytes as id, selector and the selected fields: with a mask, the baseline entity with exactly the sent fields in place of its own; as a spawn, every field of an absent id |
| `PipelineDecode.RecordsAscend` | src/pipeline/src/pipeline_decode.cpp:346-413 | the records read number as announced, ascend strictly, and stand back to back, each with that meaning |
| `PipelineDecode.AcceptedPatchMeaning` | src/pipeline/src/pipeline_decode.cpp:322-435 | an accepted field-mask Patch is exactly what its bytes say of its baseline, from behind the deletes up to the last byte |
| `PipelineDecode.ReadIsOverwrite` | src/pipeline/private/pipeline_records.cppm:579-636 | which values are read and where reading ends do not depend on the entity read into |
| `PipelineDecode.DeletesFill` | src/pipeline/src/pipeline_decode.cpp:336-344 | the delete list has the announced length and ends where the records begin |
| `PipelineDecode.ClientReplicationState.DecodeUpdate` | src/pipeline/src/pipeline_decode.cpp:274-436 | the decoder yields the specified outcome; failure leaves the remote sequence, success raises it |
| `PipelineDecode.AcceptedIsNewer` | src/pipeline/src/pipeline_decode.cpp:83-206 | whatever is accepted passed inspection and is newer than everything before |
| `DecodeRules.AcceptedStands` | src/pipeline/src/pipeline_decode.cpp:274-435 | whatever is accepted, whole or masked: its first numbers name the format and this pipeline's signature, its header stands, the baseline passed is the one it names, and its values are valid |
| `DecodeRules.WholeDecoded` | src/pipeline/src/pipeline_decode.cpp:329-423 | an admitted update of whole records is never truncated and has no bytes to spare: deletes and records stand where the counts say, and it is accepted if and only if its values are valid |
| `DecodeRules.MaskedExactly` | src/pipeline/src/pipeline_decode.cpp:361-411 | a masked record is read if and only if its id and selector are there, ids ascend, the selector is 128 for an id the baseline lacks or 1 to 15 for one it has, and the fields it names are there; otherwise the first of these that fails is the error |
| `DecodeRules.BaselineExactly` | src/pipeline/src/pipeline_decode.cpp:295-327 | which baseline may be passed: none under sequence 0 unless records are masked, or for a Patch the one under the named sequence, valid where that is checked; and which error it is otherwise |
| `DecodeRules.RecordAt` | src/pipeline/private/pipeline_records.cppm:639-702 | a whole record is read if and only if its bytes are there, each field from its own bytes in every layout |
| `DecodeRules.UpdateExactly` | src/snapshot/import/snapshot_validate.cppm:82-158 | an update is valid if and only if a full replacement deletes nothing, upserts and deletes ascend, are nonzero and disjoint, and every entity has a classification, a normalized heading and no infinite or undefined bit pattern |
| `DecodeRules.FiniteExactly` | src/snapshot/import/snapshot_validate.cppm:60-70 | a component is finite if and only if its binary32 pattern is below the infinity of its sign |
| `PipelineDecode.AcceptedSequencesIncrease` | src/pipeline/src/pipeline_decode.cpp:425-425 | over any trace of bytes and baselines accepted sequences strictly increase and the last is remembered |
| `PipelineRoundTrip.DeletesDecode` | src/pipeline/src/pipeline_decode.cpp:336-344 | written delete ids are read back |
| `PipelineRoundTrip.RecordsDecode` | src/pipeline/src/pipeline_decode.cpp:346-413 | written records, whole or masked, are read back as their canonical entities |
| `PipelineRoundTrip.BodyDecodes` | src/pipeline/src/pipeline_decode.cpp:322-424 | the body of an emitted update decodes to the logical update of the encoder |
| `PipelineRoundTrip.DecodeEncoded` | src/pipeline/src/pipeline_encode.cpp:583-601 | decoding against the baseline the update was made from gives exactly the update the recorded result was reconstructed from, or the refusal of a decoded value |
| `PipelineRoundTrip.UnquantizedIsLawful` | src/pipeline/private/pipeline_records.cppm:93-196 | without quantization canonical values are the source values bit for bit |
| `PipelineRoundTrip.LogicalUpdateValid` | src/pipeline/src/pipeline_decode.cpp:419-423 | valid snapshots and lawful transforms make updates that validation never refuses |
| `PipelineMeaning.UpsertedTable` | src/pipeline/private/pipeline_selection.cppm:243-345 | leaving out what the baseline already holds makes no difference to any id |
| `PipelineMeaning.ResultingMeaning` | src/pipeline/src/pipeline_encode.cpp:583-601 | the recorded result, id by id: canonical current value if eligible, else the baseline's while the population still has the id, else absent |
| `PipelineMeaning.UnscheduledIsExact` | src/pipeline/src/pipeline_encode.cpp:420-449 | an unscheduled update, FullReplace or Delta, masked or whole, records the canonical form of the whole population |
| `IncrementalRounds.RoundsJoin` | src/pipeline/src/pipeline_encode.cpp:53-65 | a slice and the one that starts where the cursor was left are one longer slice of the round |
| `IncrementalRounds.EveryIndexComesUp` | src/pipeline/src/pipeline_encode.cpp:395-404 | over consecutive incremental updates that together take a whole round, every index is scheduled at least once, whatever the cursor started from |
| `IncrementalRounds.ScheduledIsCurrent` | src/pipeline/src/pipeline_encode.cpp:583-601 | an update that schedules an entity records its current canonical value, also when it sends nothing for it |
| `PipelineRuns.EmitKeeps` | app/server/server_replication.cppm:1070-1102 | every emission keeps the chain: each recorded result was made from an earlier recorded one, and records never change |
| `PipelineRuns.StaleIgnored` | app/client/client_replication.cppm:427-438 | an update not newer than the newest accepted one is recognised as stale |
| `PipelineRuns.DecodesExactly` | app/client/client_replication.cppm:468-554 | a newer recorded update with its baseline kept decodes to the logical update and reconstructs to the recorded result |
| `PipelineRuns.CommitKeeps` | app/client/client_replication.cppm:580-613 | applying and retaining keep the client in step with the server's record |
| `PipelineRuns.ReceiveRecorded` | app/client/client_replication.cppm:400-616 | the fate of any delivery decided exactly: stale iff not newer, recovery iff the baseline is not kept, shown iff decodable and taken by the world; anything but success changes nothing |
| `PipelineRuns.ShownUpdateLeaves` | app/client/client_replication.cppm:580-613 | a shown update that was made from what the world shows keeps the handle of every entity that stays, any other gives every entity a new one; its result is kept as the newest behind all earlier ones but the evicted |
| `PipelineRuns.PatchesKeepHandles` | app/client/client_replication.cppm:580-592 | over every run: delivering an update made from what the client shows keeps the handle of every entity shown before and after |
| `PipelineRuns.CommittedIsRecorded` | app/server/server_replication.cppm:1363-1398 | an emission the server is told to commit is recorded under its sequence with the state behind it; any other leaves the server as it was |
| `PipelineRuns.RunKeeps` | app/client/client_replication.cppm:400-616 | over every run of emissions, rollbacks, losses, reorderings, duplicates and evictions the invariant holds and the applied sequence never falls |
| `PipelineRuns.ClientAgreesWithServer` | app/client/client_replication.cppm:351-375 | over every run each snapshot the client keeps equals the result the server recorded under that sequence, and its world shows exactly the newest |
| `PipelineRuns.CommittedIsDecodable` | src/pipeline/src/pipeline_decode.cpp:415-424 | with lawful transforms and valid populations no committed update is ever refused for its values |
| `PipelineRuns.FullReplaceNeedsNone` | app/client/client_replication.cppm:470-520 | a recorded full replacement never waits for a baseline |
| `PipelineRuns.WorldTakesOrdered` | src/game_client/src/game_client.cpp:248-259 | with non-decreasing ticks and supported classifications in the committed emissions the world takes every newer update, as a patch or as a replacement |
| `PipelineRuns.OrderedUpdatesAreShown` | app/client/client_replication.cppm:400-616 | when ticks never fall, populations are valid and transforms lawful, after any run a recorded update is shown if and only if it is newer and its baseline is kept |
| `SpatialCells.ResizedIsReady` | src/spatial/src/spatial_build.cpp:115-128 | after the capacity test every cell key of a resized grid fits the key type |
| `SpatialCells.ResizedExactly` | src/spatial/src/spatial_build.cpp:115-128 | a grid is resized if and only if its bounds and cell size are positive, each dimension is a positive 31-bit number and the cells number at most the 64-bit keys |
| `SpatialCells.DimensionExactly` | src/spatial/src/spatial_build.cpp:131-149 | the number of cells on an axis is the one whose last cell, and no earlier one, reaches the end of the bounds |
| `SpatialCells.CellsTile` | src/spatial/src/spatial_build.cpp:598-617 | the cells tile the bounds: the first begins and the last ends with them, and each ends where the next begins |
| `SpatialCells.ClampMonotone` | src/spatial/src/spatial_build.cpp:131-149 | a larger value never maps to a smaller cell, clamped ends included |
| `SpatialCells.InsideItsCell` | src/spatial/src/spatial_build.cpp:131-149 | an in-bounds value lies in the closed bounds of its cell on that axis, the shortened last cell included |
| `SpatialCells.KeyThenCoord` | src/spatial/src/spatial_build.cpp:568-587 | the key of an in-range coordinate is below the cell count and gives the coordinate back |
| `SpatialCells.CoordThenKey` | src/spatial/src/spatial_build.cpp:568-587 | the coordinate of a key below the cell count is in range and gives the key back |
| `SpatialCells.PositionInItsCell` | src/spatial/src/spatial_build.cpp:598-617 | every in-bounds position lies in the closed bounds of its cell |
| `SpatialCells.BetweenCorners` | src/spatial/src/spatial_build.cpp:165-187 | whatever lies in a box maps between the coordinates of the box's corners |
| `SpatialIndex.SortedExactly` | src/spatial/src/spatial_build.cpp:205-225 | the sorted entries hold every source once under its key; keys do not fall; within a key, ids ascend and entries of one id are in source order, and without ids all are |
| `SpatialIndex.RunsExactly` | src/spatial/src/spatial_build.cpp:232-278 | of entries in key order, each occupied range holds exactly the entries of its key, and every key has one |
| `SpatialIndex.StatsExactly` | src/spatial/src/spatial_build.cpp:386-420 | the statistics: entities, occupied cells, the largest range, attained, and the load whose product with the cells is the number of entities |
| `SpatialIndex.OrderedDetermines` | src/spatial/src/spatial_build.cpp:205-225 | that order leaves one arrangement of a set of entries |
| `SpatialIndex.DenseIsComparison` | src/spatial/src/spatial_build.cpp:454-527 | counting sort with per-cell sorting and one comparison sort give the same entries for all positions and ids: unsorted, repeated or absent |
| `SpatialIndex.SortIsSkippable` | src/spatial/src/spatial_build.cpp:366-384 | with no ids, or ids already ascending, a cell's entries need no sorting |
| `SpatialIndex.RunsOfDense` | src/spatial/src/spatial_build.cpp:386-420 | scanning the sorted entries and scanning the counts find the same occupied ranges |
| `SpatialIndex.BuildsAgree` | src/spatial/src/spatial_build.cpp:454-527 | entries, occupied ranges and statistics of the two builds are equal |
| `SpatialIndex.OverlapsAreDetected` | src/spatial/src/spatial_build.cpp:302-314 | equal neighbours after the sort appear if and only if two of the worker ranges share a source |
| `SpatialIndex.DisjointExactly` | src/spatial/src/spatial_build.cpp:280-314 | the merged entries repeat none if and only if the worker ranges share no source |
| `SpatialIndex.WorkersAgree` | src/spatial/src/spatial_build.cpp:676-707 | disjoint ranges that cover every source, in whatever order and size, give the serial entries without ids |
| `SpatialBuild.CountBoundedCellEntries` | src/spatial/src/spatial_build.cpp:316-334 | the keys array holds each position's key and the counts array the size of each cell |
| `SpatialBuild.BuildDenseCellOffsets` | src/spatial/src/spatial_build.cpp:336-346 | offsets are the number of entries in all smaller cells |
| `SpatialBuild.FillBoundedCellEntries` | src/spatial/src/spatial_build.cpp:348-364 | in-place filling puts every entry into its cell's stretch in source order |
| `SpatialBuild.OrderBoundedCellEntries` | src/spatial/src/spatial_build.cpp:366-384 | in-place per-cell sorting leaves every cell's stretch sorted and the others alone |
| `SpatialBuild.CompactBoundedCellEntries` | src/spatial/src/spatial_build.cpp:386-420 | the ranges and statistics read off the counts |
| `SpatialBuild.CompactCellEntries` | src/spatial/src/spatial_build.cpp:232-278 | refuses exactly entries with equal neighbours; otherwise yields the runs of equal keys and the statistics |
| `SpatialBuild.SerialExactly` | src/spatial/src/spatial_build.cpp:454-527 | what a serial build ends with: entries by key, id and source that hold every position once under its cell, ranges that hold exactly the entries of their keys, and the figures of both |
| `SpatialBuild.SpatialGrid.BuildBoundedKey` | src/spatial/src/spatial_build.cpp:484-527 | after the counting sort the grid holds the one serial index of these positions and ids |
| `SpatialBuild.SpatialGrid.BuildComparisonSort` | src/spatial/src/spatial_build.cpp:454-482 | after the comparison sort it holds the same index |
| `SpatialBuild.SpatialGrid.BuildSpatialGridSerial` | src/spatial/src/spatial_build.cpp:529-558 | whichever path is taken, the entries hold every position once under the key of its cell, keys do not fall, and within a cell ids ascend, ties and builds without ids in source order; ranges and statistics are those of the entries; a wrong id count or too many positions changes nothing |
| `SpatialBuild.SpatialGrid.BuildSpatialGridWorkerEntries` | src/spatial/src/spatial_build.cpp:676-697 | a worker produces the entries of its range |
| `SpatialBuild.SpatialGrid.FinishSpatialGridBuild` | src/spatial/src/spatial_build.cpp:699-707 | succeeds, for source indices of 32 bits, if and only if no two worker ranges share a source; if they cover every source the grid then holds the serial index without ids; refusal changes nothing |
| `SpatialBuild.SpatialGrid.MergeWorkerEntries` | src/spatial/src/spatial_build.cpp:280-300 | the worker parts one after the other |
| `SpatialBuild.SpatialGrid.ValidateUniqueWorkerEntries` | src/spatial/src/spatial_build.cpp:302-314 | accepts exactly sequences without equal neighbours |
| `SpatialQuery.FindCellRange` | src/spatial/import/spatial_query.cppm:68-77 | binary search finds a cell's range exactly when the cell is occupied |
| `SpatialQuery.CellReports` | src/spatial/import/spatial_query.cppm:119-177 | one cell reports each of its hits once and nothing of another cell |
| `SpatialQuery.Query.QueryCell` | src/spatial/import/spatial_query.cppm:153-177 | the entries of the range found, filtered |
| `SpatialQuery.Query.QueryCells` | src/spatial/import/spatial_query.cppm:36-66 | the scan over a box of cells reports, each once, exactly the hits whose cell lies in it |
| `SpatialQuery.Query.QueryAabb` | src/spatial/import/spatial_query.cppm:241-264 | an inverted box is refused; when some point lies in both the box and the grid bounds, exactly the positions in the box, edges included, are reported, each once, otherwise nothing; so the report is complete if and only if the box meets the bounds or holds no position |
| `SpatialQuery.Query.QueryRadius` | src/spatial/import/spatial_query.cppm:211-236 | a negative radius is refused; when some point of the grid bounds is within the radius of the center on every axis, exactly the positions within that distance are reported, each once, otherwise nothing, with the same condition for completeness |
| `SpatialQuery.CompleteExactly` | src/spatial/import/spatial_query.cppm:182-205 | the answer of a box or ball query is complete if and only if the scanned box meets the grid bounds or there is nothing to find |
| `SpatialQuery.IntersectsExactly` | src/spatial/import/spatial_query.cppm:182-205 | two boxes that are not inverted meet if and only if some point lies in both |
| `SpatialQuery.InBoundsAlwaysComplete` | src/spatial/import/spatial_query.cppm:211-264 | with every position in bounds nothing is ever missed, by a box or a ball |
| `SpatialQuery.OutOfBoundsIsMissed` | src/spatial/import/spatial_query.cppm:241-264 | a concrete grid, position and box for which no answer of the query reports the position |
| `SpatialQuery.OutOfBoundsBallIsMissed` | src/spatial/import/spatial_query.cppm:211-236 | the same for a ball around the position |
| `SpatialQuery.OnlyOutOfBoundsMissed` | src/spatial/import/spatial_query.cppm:182-205 | whatever an answer misses lies out of the bounds |
| `SpatialQuery.MissOutside` | src/spatial/import/spatial_query.cppm:211-264 | both queries called on that grid report nothing |
| `NeighborHeap.OrderIndependent` | src/game_server/src/game_server.cpp:467-507 | the selected neighbours do not depend on the order of candidates |
| `NeighborHeap.BestExactly` | src/game_server/src/game_server.cpp:467-507 | the selected are as many as there are candidates, up to the maximum, by distance and then id, and nearer than every candidate left out, or as near with a smaller id |
| `NeighborHeap.TakeInsert` | src/game_server/src/game_server.cpp:488-507 | a newcomer displaces the last of the best exactly when it is better |
| `NeighborHeap.FrontIsWorst` | src/game_server/src/game_server.cpp:500-503 | the front of the heap is worse than everything else in it |
| `NeighborHeap.BestStep` | src/game_server/src/game_server.cpp:488-507 | one candidate changes the set of the best exactly as the heap step does |
| `NeighborHeap.WorkerScratch.PushHeap` | src/game_server/src/game_server.cpp:496-498 | sifting up restores the heap over the same elements |
| `NeighborHeap.WorkerScratch.PopHeap` | src/game_server/src/game_server.cpp:504-505 | the worst goes to the back and the rest is a heap of the same elements |
| `NeighborHeap.WorkerScratch.KeepNeighbor` | src/game_server/src/game_server.cpp:488-507 | the heap gains the candidate, exchanges its worst for it, or stays |
| `NeighborHeap.WorkerScratch.SelectNeighbors` | src/game_server/src/game_server.cpp:659-686 | feeding all candidates through the heap and sorting leaves min(k, n) of them, by distance and then id, none of those left out nearer than a kept one or as near with a smaller id |
| `AuthorityIndex.FindIndex` | src/game_server/src/game_server.cpp:113-117 | the lower bound, which finds an id exactly when it is listed |
| `AuthorityIndex.SpawnKeeps` | src/game_server/src/game_server.cpp:1823-1865 | a spawn keeps the index invariant: ids ascending and nonzero, each paired with its own live entity of that id, boid rows 0..count-1 in id order |
| `AuthorityIndex.SpawnIsFresh` | src/game_server/src/game_server.cpp:1830-1864 | a spawn never returns a live id and the next id moves past it or is exhausted |
| `AuthorityIndex.DeleteKeeps` | src/game_server/src/game_server.cpp:1894-1918 | deleting keeps the invariant, boid rows included |
| `AuthorityIndex.DeleteExactly` | src/game_server/src/game_server.cpp:1894-1918 | a delete succeeds if and only if the id is a listed player's and removes that id and no other; a boid's id is refused and changes nothing |
| `AuthorityIndex.AppendKeeps` | src/game_server/src/game_server.cpp:1920-2078 | appending boids keeps the invariant, whatever is handed in |
| `AuthorityIndex.RunKeeps` | src/game_server/src/game_server.cpp:1823-2078 | so does every sequence of the three |
| `AuthorityIndex.ReachableIndexes` | src/game_server/src/game_server.cpp:1823-2078 | every reachable index passes the later phases' checks: sorted, nonzero, sizes agree, as many boid rows as boids |
| `AuthorityRules.SpawnExactly` | src/game_server/src/game_server.cpp:1823-1865 | a spawn succeeds if and only if the world made the entity and some id from the next one on is free; it takes the least of them, adds exactly that player to the population, and the next id follows it |
| `AuthorityRules.DeleteExactly` | src/game_server/src/game_server.cpp:1894-1918 | a delete succeeds if and only if the id is a player in the population, and takes out exactly that |
| `AuthorityRules.AppendExactly` | src/game_server/src/game_server.cpp:1920-2078 | an append takes all states if and only if they are not too many, each has a valid body and an id above the last listed one and the one before it, and the world took them; they become boids in the rows behind the others and everyone else stays; otherwise nothing changes |
| `AuthorityRules.AppendRefusal` | src/game_server/src/game_server.cpp:1940-2010 | the refusal names the first state that is not fine and what is wrong with it |
| `AuthorityHistory.ReachableHistories` | src/game_server/src/game_server.cpp:1823-2078 | after any run the players' ids ever issued are the live players' and the deleted ones'; before the last id of all is issued they are below the next id, and every id below it above the boids has been issued; afterwards every id above the boids has been |
| `AuthorityHistory.SpawnRepeatsExactly` | src/game_server/src/game_server.cpp:1823-1865 | after any run, the id a spawn returns belonged to an earlier player if and only if the last id of all has been issued before |
| `AuthorityHistory.AppendRepeatsExactly` | src/game_server/src/game_server.cpp:1936-2073 | after any run, an appended boid takes a former player's id if and only if its id is below the next id or the last id of all has been issued; that player is then a deleted one |
| `AuthorityHistory.IssuedIncreaseExactly` | src/game_server/src/game_server.cpp:1823-2078 | the ids issued over a run increase strictly if and only if none is issued after an append that restored an exhausted next id |
| `AuthorityHistory.ResetsExactly` | src/game_server/src/game_server.cpp:2070-2073 | such an append is a successful one, at next id zero, whose last boid is not the last id of all |
| `AuthorityHistory.IdsComeBack` | src/game_server/src/game_server.cpp:1823-2078 | a run from the empty index in which a boid takes a deleted player's id and the next spawn returns another deleted player's |
| `AuthorityHistory.BoidTakesPlayersId` | src/game_server/src/game_server.cpp:1936-2073 | a run of three operations in which a boid takes a deleted player's id with ids to spare |
| `AuthorityIndex.Capture` | src/game_server/src/game_server.cpp:1484-1536 | the capture of rows cannot fail in any visiting order: every row is hit once and the captured ids are the boids' ids ascending |
| `AuthorityIndex.AuthoritativeReplicationIndex.SpawnAuthoritativePlayer` | src/game_server/src/game_server.cpp:1823-1865 | the probing loop and the insertion in place compute the specified next index and id |
| `AuthorityIndex.AuthoritativeReplicationIndex.DeleteAuthoritativePlayer` | src/game_server/src/game_server.cpp:1894-1918 | removal in place computes the specified index; refusals change nothing |
| `AuthorityIndex.AuthoritativeReplicationIndex.AppendAuthoritativeBoids` | src/game_server/src/game_server.cpp:1920-2078 | nothing changes unless every state is valid and the world took them all; the report names the first offence in the order of the code |
| `Synthetic.CohortSize` | src/synthetic/src/synthetic_snapshot.cpp:215-224 | at most the population, and zero exactly for an empty population or a zero fraction |
| `Synthetic.CohortIsFraction` | src/synthetic/src/synthetic_snapshot.cpp:222-223 | otherwise the floor of the fraction of the population, but at least one; the upper clamp never bites |
| `Synthetic.SyntheticSnapshotState.UpdateSyntheticWorldSnapshot` | src/synthetic/src/synthetic_snapshot.cpp:256-313 | the state machine of the scheduler: initial fill, repeated tick, refusals, and one cohort serviced from the cursor on |
| `Synthetic.ServicesAreTurns` | src/synthetic/src/synthetic_snapshot.cpp:290-310 | services counted update by update are the full rounds of the cursor past an entity |
| `Synthetic.ServicedEvenly` | src/synthetic/src/synthetic_snapshot.cpp:290-310 | after k updates of cohort c over N entities every entity was serviced floor(kc/N) or ceil(kc/N) times |
| `Synthetic.GapsAreBounded` | src/synthetic/src/synthetic_snapshot.cpp:290-310 | with c > 0 no entity waits longer than ceil(N/c) updates |
| `Synthetic.NextAfter` | src/synthetic/src/synthetic_snapshot.cpp:305-310 | after k updates the cursor stands at kc mod N |
| `Synthetic.FieldsFollowServices` | src/synthetic/src/synthetic_snapshot.cpp:226-304 | each selected field equals the generated value of the entity's last service, every other field that of the initial fill |
| `Synthetic.FieldsExactly` | src/synthetic/src/synthetic_snapshot.cpp:226-304 | field by field and mode by mode: positions and headings are those of the last service unless the mode leaves them out, hues only when it takes everything, otherwise those of the initial fill |
| `Synthetic.LastServiceExactly` | src/synthetic/src/synthetic_snapshot.cpp:290-310 | the last service is the latest update whose cohort held the entity, if there was one |
| `Synthetic.ServicedExactly` | src/synthetic/src/synthetic_snapshot.cpp:290-304 | a cohort holds an entity if and only if some offset below its size, counted round from its start, arrives there |
| `Synthetic.AcceptedExactly` | src/synthetic/src/synthetic_snapshot.cpp:256-289 | an update is accepted if and only if the settings are valid and, after the first, unchanged with the tick the next one; every refusal leaves the state alone |
| `CsvText.AppendCsvText` | src/telemetry/src/telemetry_csv.cpp:81-107 | quotes exactly when needed and doubles quotes |
| `CsvText.QuotedExactly` | src/telemetry/src/telemetry_csv.cpp:81-107 | a field is quoted if and only if a comma, a quote, a carriage return or a line feed stands in it |
| `CsvText.CsvRow.Text` | src/telemetry/src/telemetry_csv.cpp:136-174 | separates fields by commas, with none before the first |
| `CsvText.RowReads` | src/telemetry/src/telemetry_csv.cpp:81-174 | a row and its line break are read back as the same fields by a reader of section 2 of RFC 4180, commas, quotes and breaks inside fields included |
| `CsvText.LinesRead` | src/telemetry/src/telemetry_csv.cpp:81-174 | so is a file of rows |
| `CsvWriter.EvidenceCsvFile.WriteRow` | src/telemetry/src/telemetry_csv.cpp:679-702 | after a failure or a close nothing more is written and the first failure stays; otherwise the row and its break, or a prefix of them, is appended |
| `CsvWriter.EvidenceCsvFile.Flush` | src/telemetry/src/telemetry_csv.cpp:704-726 | never changes the text; failures stick |
| `CsvWriter.EvidenceCsvFile.Close` | src/telemetry/src/telemetry_csv.cpp:728-742 | closes in any case and is repeatable |
| `CsvWriter.ReplicationCsvWriter.PersistRows` | src/telemetry/src/telemetry_csv.cpp:517-546 | the file grows along the rows taken, in record order and each once; the buffer is cleared only if all got through |
| `CsvWriter.ReplicationCsvWriter.Submit` | src/telemetry/src/telemetry_csv.cpp:319-342 | a taken measurement is logged under the next record number behind those buffered, or alone after a drain at 128; the overflow branch is never reached; failures stick |
| `CsvWriter.ReplicationCsvWriter.Drain` | src/telemetry/src/telemetry_csv.cpp:825-846 | success means everything taken so far was handed over |
| `CsvWriter.ReplicationCsvWriter.Close` | src/telemetry/src/telemetry_csv.cpp:848-867 | success means the file holds the header and every row taken |
| `CsvWriter.ClosedFileReads` | src/telemetry/src/telemetry_csv.cpp:848-867 | such a file reads back, behind its header line, as the rows taken |
| `CsvWriter.WholeRowsRead` | src/telemetry/src/telemetry_csv.cpp:517-546 | stopped anywhere, whole rows written are the first rows in record order |
| `SessionProtocol.MismatchMeaning` | src/transport/src/transport_protocol.cpp:22-37 | no mismatch is reported exactly for equal identities, and a reported one can be sent as a rejection |
| `SessionProtocol.DecodeExactly` | src/transport/src/transport_protocol.cpp:77-160 | a byte string is accepted as a message if and only if it is the encoding of that valid message |
| `SessionProtocol.SessionBytes` | src/transport/src/transport_protocol.cpp:77-99 | every handshake message as bytes: magic, version 4, its kind, the size of the rest and its fields |
| `SessionProtocol.EncodeSessionMessage` | src/transport/src/transport_protocol.cpp:77-99 | appending field by field writes that encoding |
| `SessionProtocol.DecodeSessionMessage` | src/transport/src/transport_protocol.cpp:101-160 | reads header and payload field by field with a moving offset, accepts exactly those strings and leaves the message alone otherwise |
| `AppProtocol.MessageExactly` | app/common/app_protocol.cpp:114-182 | join, role and pause messages: accepted if and only if the encoding of that valid message |
| `AppProtocol.PlayerInputExactly` | app/common/app_protocol.cpp:184-203 | the same for player input |
| `AppProtocol.SnapshotAckExactly` | app/common/app_protocol.cpp:205-229 | the same for acknowledgements |
| `AppProtocol.RecoveryExactly` | app/common/app_protocol.cpp:231-262 | the same for recovery requests |
| `AppProtocol.MessageBytes` | app/common/app_protocol.cpp:114-142 | every join and pause message as bytes: its kind, version 3 and its fields; and which messages are valid |
| `AppProtocol.KindExactly` | app/common/app_protocol.cpp:89-112 | a kind is recognised if and only if it is one of eight and version 3 follows it, whatever comes behind |
| `AppProtocol.OneDecoderAtMost` | app/common/app_protocol.cpp:89-262 | no byte string is accepted by two decoders, and the accepting one is told by the kind byte |
| `AppProtocol.EncodeAppMessage` | app/common/app_protocol.cpp:114-142 | pushing bytes and fields writes the message's encoding |
| `AppProtocol.DecodeRecoveryRequest` | app/common/app_protocol.cpp:243-262 | accepts exactly encodings of valid requests and leaves the destination alone otherwise |

## Left out

- Rounding: floats of snapshots and records are bit patterns; quantization and octahedral headings are functions given as parameters, about which `LawfulNumerics` says only that they keep valid entities valid. Grid, neighbour and cohort arithmetic is over reals, and the finiteness checks on positions handed to the grid are left out with them.
- Zstd: a codec given by functions; the only facts assumed are that a frame it made is one complete, non-empty frame that knows its content size and decompresses to its content.
- Library algorithms: `std::sort` and `std::unique` are their specified results; the heap operations, the binary searches, `std::erase_if` and the other loops are written out.
- Area of interest and level of detail: which entities are retained, which indices are pending and the next cursor enter the encoder as inputs, unrestricted but for the retained entities being in id order.
- Acknowledgements, recovery mode and retention by bytes: the server may pass any recorded result as a baseline and may force a full replacement at any time; the client may evict any number of its oldest results at any time; the refusal of a single result above the retention capacity is left out.
- Partially sent updates: a send failure disconnects the peer, so packets of an uncommitted update are not delivered.
- Parallel arrays of ids, positions, headings and so on are one sequence of rows; spare capacity and aliasing of scratch buffers across calls are not modelled.
- 64-bit counters of the receiver's report are unbounded; the 32-bit narrowing of its two totals is modelled and proved never to lose a value.
- Flecs: entities are fresh handles in a map of live entities; queries visit the boids in an arbitrary order; scheduling, phases, threads and worker timing are left out, and workers run in any order.
- Capture of positions, headings, velocities and hues, with its finiteness and range checks; only ids and rows are modelled.
- The values of generated fields: the generator is a parameter, assumed to produce what the snapshot validation takes.
- Boid forces, player movement, hue and heading trigonometry, interpolation, rendering, camera, configuration, fingerprints, logging and reports of quality or timing.
- ENet, sockets, handshakes, polling and the decoding of a stationary observer's interest, which normalises a float direction; only its kind byte and length take part in `OneDecoderAtMost`.
- Number formatting in CSV fields: fields are strings; the file is the text handed to the stream, and lines end in a line feed as the code writes them, not in the carriage return and line feed of RFC 4180.
- Error texts; each error is a constructor, in the order the code checks them.
- The checked wrappers `encode_snapshot` and `reconstruct_world_snapshot`, which only add validation in front of the modelled functions.
- PipelineRuns.ReceiveRecorded: is about recorded updates only; arbitrary bytes are covered by `AcceptedSequencesIncrease` and `AcceptedPatchMeaning`.
