# Streaming server: models and proofs

A Dafny model of the parts of the video streaming server where a mistake is easy to make and hard to see, with
proofs about all inputs and all runs. `dafny verify dfyconfig.toml` checks the whole project.

The server sends video over a small QUIC-like transport of its own: 25-byte packet headers, 32 connections with 16
streams each, a 64-slot table of packets waiting for an acknowledgement, and reassembly of out-of-order segments into
16 KiB pieces. Around it are a WebSocket frame codec with SHA-1 and Base64, the setting strings and key expansion of
bcrypt, and a parser for uploaded forms.

Code that works step by step in the original does so here: classes over linked nodes and slot arrays, loops over
buffers. Each such method is proved equal to a function on values, and the properties are proved of those functions.

| modules | what they hold |
|---|---|
| `Bytes` | bytes, machine widths, byte order, bit operations on numbers |
| `Reassembly`, `ReassemblyOrder`, `StreamTable` | one stream and the streams of a connection, on values; runs of calls |
| `StreamList` | the same as linked nodes spliced and trimmed in place |
| `PacketCodec` | the wire format of packets |
| `EngineSpec`, `EngineTables` | the engine as a state machine, and its table seen as a map from connection ids |
| `EngineSlots`, `EngineReplies`, `EngineRetries` | every step told from connections and slots alone: what it sends, where to, and what becomes of each pending packet |
| `EngineLifecycle`, `EngineIsolation`, `EngineAcks`, `EngineMetrics`, `EngineCounters`, `EnginePending`, `EngineOwnership` | what every run keeps |
| `EngineCode` | the engine's loops over its slot arrays |
| `ChunkSender`, `EndToEnd`, `EndToEndRuns` | a file range cut into packets, the sender's wire, and what comes out at the other end |
| `WebSocketFrames`, `Sha1`, `Base64` | frames, digest and text encoding against their standards |
| `KeySchedule`, `BlowfishText`, `BlowfishCrypt`, `BlowfishInputs`, `Bcrypt` | key expansion, text layer, settings, what the cipher is given, and the wrapper |
| `Multipart`, `MultipartRoundTrip` | the form parser, and a printer it inverts |

## Where the code does less than one expects

The code was modelled as it is. Where a natural property fails, a lemma gives an input for which it does, and another
one says exactly when it holds.

- A list of held segments does not stay sorted (`SortednessIsLost`); `SortedIff` says after which calls it does, and
  `PartitionForm` what always holds: a prefix at or before the next offset, then a sorted rest.
- Delivery starts again at 0 when a call reaches offset 2^32 (`UnboundedSegmentWraps`); `WrapsIff` says which calls do.
  What holds over whole runs of a stream is stated for segments with offset + length < 2^32.
- An ACK does not always mean that the bytes are there (`AckWithoutBytes`); `AckSafety` says when it does.
- A packet with INITIAL and CLOSE for an unknown id is counted as closed but not as opened (`ClosedExceedsOpened`);
  `MetricsConserved` counts them.
- DATA sent with `quic_engine_send` directly may be pending for no connection (`RawSendStrands`); `StepOwned` and
  `OwnedIff` say which sends do that.
- A form whose last file is empty keeps the length of the file before it (`StaleLength`); `FileIffLastNotEmpty` says
  when file and length belong together.
- A field counts as title or description as soon as its name begins so (`LongerNameIsTitle`, `KindRead`).
- Frames of more than 64 KiB are written but refused by the reader (`FrameRoundTrip`).
- Only the first 72 bytes of a password and the first 23 of 24 digest bytes matter (`LongPasswordsCollide`,
  `PasswordsTruncate`, `ExpansionDeterminesHead`, `AcceptedIff`).

## Model

| member | source | states |
|---|---|---|
| `Reassembly.PartitionForm` | src/server/quic_stream.c:59-65 | The held-list invariant is exactly: a prefix of segments at or before `next_offset` in any order, then the rest sorted by offset, all after it |
| `Reassembly.SortednessIsLost` | src/server/quic_stream.c:92-98 | From a sorted list, one call with a full buffer can leave the head after the segment behind it, so plain sortedness is no invariant |
| `ReassemblyOrder.SortedIff` | src/server/quic_stream.c:59-98 | One call that does not wrap leaves a sorted list sorted iff the buffer takes everything up to the first gap, or no segment behind one that reaches past the end of the buffer starts before that end |
| `Reassembly.FeedKeepsInv` | src/server/quic_stream.c:112-140 | Every call keeps the held-list invariant, delivers at most the buffer size, moves `next_offset` by what it delivers, and conserves coverage: delivered or held afterwards is what was before plus the new segment |
| `Reassembly.GapExists` | src/server/quic_stream.c:72-105 | Whatever the segments, there is a least offset at or after `next_offset` that neither the held ones nor the new one reach |
| `Reassembly.ExactReassembly` | src/server/quic_stream.c:44-140 | If all segments agree with one source and the gap or the end of the buffer comes before 2^32, a call delivers exactly min(buffer size, first gap - `next_offset`) bytes, they are the source's from the reported offset on, and `next_offset` moves by as much |
| `Reassembly.UnboundedSegmentWraps` | src/server/quic_stream.c:90 | A concrete segment that ends at 2^32 makes delivery start again at 0 |
| `Reassembly.WrapsIff` | src/server/quic_stream.c:68-110 | For any segments in list order, bounded or not: the next offset is the old one plus what was delivered iff the first gap or the end of the buffer lies below 2^32 |
| `Reassembly.UnfilledBufferIsDry` | src/server/quic_stream.c:72-105 | A call that does not fill its buffer leaves nothing deliverable behind |
| `Reassembly.RunCovers` | src/server/quic_stream.c:112-140 | Over every run: the invariant holds, and delivered or held is what was at the start plus all that was ever sent |
| `Reassembly.RunDeliversSource` | src/server/quic_stream.c:112-140 | Over every run of source-consistent segments, what is delivered is the source from the starting offset on, without a hole |
| `Reassembly.RunDeliversArrivals` | src/server/quic_stream.c:112-140 | Even when segments contradict each other, every delivered byte stands at its offset in a segment that arrived |
| `Reassembly.SameSegmentsSameCover` | src/server/quic_stream.c:68-140 | The same set of segments, in any orders, multiplicities and buffer sizes, covers the same offsets |
| `Reassembly.OrderIndependence` | src/server/quic_stream.c:68-140 | And when nothing deliverable is left in either run, both have delivered the same bytes |
| `StreamTable.FindOrCreateViews` | src/server/quic_stream.c:142-159 | Finding or opening a stream changes no stream as seen by its id, keeps ids distinct, and fails iff the id has no slot and none is free |
| `StreamTable.OnDataViews` | src/server/quic_stream.c:112-140 | The sixteen slots are a map from ids to streams: an accepted call feeds exactly the named stream and reports its old offset, a rejected one changes none; acceptance iff data, buffer, allocation and a slot are there |
| `StreamTable.ResetViews` | src/server/quic_stream.c:29-42 | A reset succeeds iff the stream is open, makes it fresh and leaves all others as they were |
| `StreamTable.DestroyedViews` | src/server/quic_stream.c:16-27 | After destroy every stream starts from nothing, although freed slots keep stale ids and offsets |
| `StreamList.StreamState.Insert` | src/server/quic_stream.c:44-66 | The linked list after splicing through the cursor is the abstract insertion before the first segment that does not start earlier |
| `StreamList.StreamState.CopyHead` | src/server/quic_stream.c:83-98 | One turn: copies what fits, trims the head node in place or unlinks it |
| `StreamList.StreamState.Consume` | src/server/quic_stream.c:68-110 | The loop over the linked nodes drains exactly as the abstract function says and writes those bytes, nothing after them |
| `StreamList.StreamManager.FindOrCreate` | src/server/quic_stream.c:142-159 | Returns the first state in use for the id, else opens the first free one, else reports none |
| `StreamList.StreamManager.FeedSlot` | src/server/quic_stream.c:134-138 | Insertion and draining on the state of one slot; the other fifteen keep their lists |
| `StreamList.StreamManager.OnData` | src/server/quic_stream.c:112-140 | Return code, reported offset, output bytes and the whole new manager are those of the abstract table |
| `StreamList.StreamManager.Reset` | src/server/quic_stream.c:29-42 | Return code and new manager are those of the abstract reset |
| `StreamList.StreamManager.Destroy` | src/server/quic_stream.c:16-27 | Every state in use loses its list and is freed; offsets and ids stay |
| `StreamList.StreamManager.constructor` | src/server/quic_stream.c:9-14 | A manager starts with sixteen distinct free states |
| `PacketCodec.Swap32Memory` | src/server/quic.c:209-217 | What htonl puts into memory on a little-endian host is the number most significant byte first, and ntohl gets it back |
| `PacketCodec.Swap64Memory` | src/server/quic.c:16-30 | The 64-bit identifier built from two 32-bit swaps is in memory the eight bytes most significant first, and the inverse gets it back |
| `PacketCodec.HeaderIsBigEndian` | src/server/quic.c:204-217 | The 25 header bytes are the flags and then every field in network byte order |
| `PacketCodec.DecodeUndoesEncode` | src/server/quic.c:190-260 | Deserialize after serialize is the identity for every packet with its payload present and length up to 16384, whatever follows in the buffer |
| `PacketCodec.EncodeUndoesDecode` | src/server/quic.c:230-260 | Whatever deserializes re-serializes to its own first 25 + length bytes |
| `PacketCodec.DecodeIgnoresTail` | src/server/quic.c:512-543 | A receive buffer of 25 + 16384 bytes loses nothing that deserializing looks at |
| `PacketCodec.Serialize` | src/server/quic.c:190-228 | Succeeds iff the length is allowed and the buffer large enough; the buffer then holds header and payload and is otherwise untouched; a NULL payload leaves its bytes as they were |
| `PacketCodec.Deserialize` | src/server/quic.c:230-260 | Gives exactly the packet of the format, or -1 for a short buffer or a length that is too large |
| `EngineCode.QuicEngine.FindEntry` | src/server/quic.c:62-69 | The first entry in use for the id |
| `EngineCode.QuicEngine.AddConnection` | src/server/quic.c:71-84 | Takes the first free entry with fresh streams in state CONNECTING, or changes nothing |
| `EngineCode.QuicEngine.CleanupConnections` | src/server/quic.c:497-508 | The loop closes exactly the entries unseen for more than 30 seconds, clears their pending packets and counts them |
| `EngineCode.QuicEngine.ClearPendingFor` | src/server/quic.c:735-744 | Frees exactly the pending entries of the connection |
| `EngineCode.QuicEngine.TrackPacket` | src/server/quic.c:648-673 | A DATA packet takes the first free pending slot, if there is one |
| `EngineCode.QuicEngine.AckPacket` | src/server/quic.c:675-687 | Frees the first pending entry with that connection id and packet number |
| `EngineCode.QuicEngine.RetransmitPending` | src/server/quic.c:689-733 | The loop over the slots retransmits, retires and frees exactly as the step function says, and puts exactly those datagrams on the wire |
| `EngineCode.QuicEngine.SendPacket` | src/server/quic.c:355-376 | Serializes into a local buffer; on success the packet is on the wire, counted and tracked, otherwise nothing has changed; a NULL payload goes out as the bytes that the buffer happens to hold |
| `EngineCode.SerializedBytes` | src/server/quic.c:204-221 | The serialized bytes are the encoding of the packet, a missing payload filled up from the buffer |
| `EngineCode.QuicEngine.GetAddress` | src/server/quic.c:378-395 | Cleans up, and gives the address of a CONNECTED entry, which then counts as seen now |
| `EngineCode.QuicEngine.SendToId` | src/server/quic.c:397-408 | Sends iff the connection is CONNECTED after cleanup, to its address, with a NULL payload treated alike |
| `EngineCode.QuicEngine.CloseConnection` | src/server/quic.c:410-435 | Closes a live entry, clears its pending packets, counts it and sends CLOSE to its address |
| `EngineCode.QuicEngine.AdmitPacket` | src/server/quic.c:100-130 | An unknown id needs INITIAL and a free entry; a known one takes over address and time, and a changed address counts as migration |
| `EngineCode.QuicEngine.ProcessPacket` | src/server/quic.c:86-162 | The whole of process_packet: new tables and counters, acceptance, and whether a handshake reply is due |
| `EngineCode.QuicEngine.DeliverPayload` | src/server/quic.c:568-593 | The payload goes to the stream of the packet's live connection, and the handler is given what became contiguous |
| `EngineCode.QuicEngine.ReceiveOne` | src/server/quic.c:538-604 | One receive iteration is the Receive step of the state machine: tables, counters, wire and deliveries |
| `EngineCode.QuicEngine.IdleOne` | src/server/quic.c:528-534 | One timed-out iteration is the Tick step: cleanup, then retransmission |
| `EngineTables.CleanLookup` | src/server/quic.c:497-508 | Seen as a map from ids, cleanup removes exactly the expired ids |
| `EngineTables.ProcessEntry` | src/server/quic.c:86-162 | Processing a packet acts on the entry of its own id only; every other id only sees the cleanup |
| `EngineTables.StepEntry` | src/server/quic.c:62-152 | Every step keeps the table sound and acts on each id on its own; the rest of the table matters only for whether there is room |
| `EngineTables.ReachableTable` | src/server/quic.c:62-152 | In every reachable state live ids are pairwise distinct and every live entry is CONNECTING or CONNECTED |
| `EngineLifecycle.LiveIff` | src/server/quic.c:86-162 | After every run an id is live iff an INITIAL packet without CLOSE created its entry and nothing has ended it since |
| `EngineLifecycle.ConnectedIff` | src/server/quic.c:100-152 | After every run an id is CONNECTED iff moreover the creating packet or a later one carried HANDSHAKE, with no CLOSE, local close or timeout since the creation |
| `EngineLifecycle.AddressIsLatest` | src/server/quic.c:120-130 | A live connection is reached at the source of the latest packet that named it, also after it moved |
| `EngineLifecycle.LastSeenIsLatest` | src/server/quic.c:129 | The time the 30-second timeout counts from is that of the latest packet, lookup or send that found it |
| `EngineSlots.DueIsResent` | src/server/quic.c:695-721 | At a tick, a pending packet last sent at least a second ago goes out again to the address of its connection, if that was seen in the last 30 seconds and sendto works |
| `EngineSlots.DueSlot` | src/server/quic.c:722-732 | It then counts one more retry, was last sent now, and stays until the third; if sendto fails it is freed |
| `EngineSlots.NotDueSlot` | src/server/quic.c:696-700 | A slot that is free or was sent less than a second ago is left alone by a tick, except that the timeout of its connection frees it |
| `EngineSlots.LostSlot` | src/server/quic.c:703-713 | A due packet whose connection is not live, or timed out, is freed |
| `EngineSlots.TickWire` | src/server/quic.c:689-733 | The wire of a tick is one datagram for every such packet, in the order of the slots, with its bytes and the address of its connection, and nothing else |
| `EngineSlots.HeardSlot` | src/server/quic.c:675-687 | An ACK frees the first slot that holds its connection id and packet number, and no other; with none there is no change |
| `EngineSlots.ArriveSlotIs` | src/server/quic.c:538-604 | Any slot through a received packet: freed by its acknowledgement, by the timeout of its connection, or by a CLOSE for it that is taken, and otherwise as it was |
| `EngineSlots.CloseSlotIs` | src/server/quic.c:416-428 | A local close frees exactly the slots of the live connection that it names |
| `EngineSlots.LookupSlotIs` | src/server/quic.c:378-386 | A lookup frees exactly the slots of connections unseen for more than 30 seconds |
| `EngineSlots.SentSlot` | src/server/quic.c:648-673 | A DATA packet that goes out takes the first free slot, with its serialized bytes, id and number, sent now and never again yet; all other slots stay |
| `EngineSlots.AdmittedIff` | src/server/quic.c:100-130 | A packet is refused iff its id is not known and it lacks INITIAL or every entry is taken by a connection seen in the last 30 seconds |
| `EngineReplies.LookupYields` | src/server/quic.c:378-395 | A lookup yields the address of the CONNECTED entry of the id that was seen in the last 30 seconds, and nothing when there is none |
| `EngineReplies.SendGoesTo` | src/server/quic.c:397-408 | send_to_connection succeeds iff there is such an entry, the payload has at most 16384 bytes and sendto works; then exactly the packet goes out, to that entry |
| `EngineReplies.SendDataSlotIs` | src/server/quic.c:397-408 | And its slot is the first that is free once timed-out connections have lost theirs |
| `EngineReplies.RawSends` | src/server/quic.c:355-376 | A direct send puts exactly the packet on the wire, to the address given, iff the payload has at most 16384 bytes and sendto works |
| `EngineReplies.SendAddress` | src/server/quic.c:386-407 | Over every run: what send_to_connection sends goes to the source of the latest packet of that connection |
| `EngineReplies.LookupAddress` | src/server/quic.c:386-391 | Over every run: an address that a lookup yields is that source |
| `EngineReplies.CloseSends` | src/server/quic.c:410-435 | Over every run: a local close succeeds iff the id is live, and then sends one CLOSE packet, flags 16 and number 0, to that source |
| `EngineReplies.TimesOutIff` | src/server/quic.c:497-508 | Over every run: a step that cleans up, and brings no packet for a live id, ends it iff it was last heard of more than 30 seconds ago |
| `EngineReplies.StaysIdle` | src/server/quic.c:355-376 | A direct send, or bytes that do not deserialize, end no connection |
| `EngineReplies.ReplyFields` | src/server/quic.c:164-188 | On the wire a handshake reply has flags 10 and number 1, a close notice flags 16 and number 0, an ACK flags 8 and the number, stream and offset of its packet |
| `EngineReplies.TakenIff` | src/server/quic.c:100-161 | process_packet accepts a packet iff it opens a connection, or its id is known and is CONNECTED or the packet has INITIAL, HANDSHAKE or CLOSE; a handshake reply is due iff it opens one |
| `EngineReplies.ReceiveAnswers` | src/server/quic.c:552-604 | The whole wire of a receive step: a handshake reply iff the packet opens a connection, then an ACK iff it has DATA, is accepted and somebody listens; both to its source |
| `EngineReplies.SilentSteps` | src/server/quic.c:378-395 | A lookup, and bytes that do not deserialize, send nothing |
| `EngineRetries.SparedSlot` | src/server/quic.c:689-733 | An event that neither acknowledges a pending packet nor gives up its connection leaves it as it is, unless it is a tick a second after it was last sent |
| `EngineRetries.SentAtThreeTicks` | src/server/quic.c:689-733 | Over any such events the packet goes out again at exactly the first three ticks, less those it has had, that come a second after it was last sent |
| `EngineCounters.CountersAre` | src/server/quic.c:370-372 | After every run: sent counts the datagrams on the wire, received the datagrams that came in, migrated the packets that came for a known connection from a new address |
| `EngineIsolation.NextStream` | src/server/quic.c:568-592 | One step and one stream: it is fed the payload accepted for its pair, or left alone; a new connection starts from fresh streams |
| `EngineIsolation.StepDelivers` | src/server/quic.c:568-592 | What a step hands to the stream handler for a pair is what that one stream yields, at the offset it had reached |
| `EngineIsolation.Isolation` | src/server/quic.c:71-84 | Over every run the state and all delivered bytes of (connection, stream) are those of a fresh stream fed only with the payloads accepted for that pair since the connection's latest creation |
| `EngineAcks.HistoryWasBrought` | src/server/quic.c:538-593 | Every payload in that history was brought by a DATA packet naming the pair, after which nothing has ended the connection |
| `EngineAcks.DeliveredComeFromHistory` | src/server/quic.c:568-593 | Every byte delivered for a pair stands at its offset in a payload of the pair's own history |
| `EngineAcks.HasByteIff` | src/server/quic.c:568-593 | Delivered or held by the live connection is exactly what the history carried |
| `EngineAcks.AckSafety` | src/server/quic.c:568-604 | When the receive step answers a DATA packet, all its bytes are delivered or held iff the packet carried no CLOSE, its stream was open or a slot free, and the allocation succeeded or was not needed |
| `EngineAcks.AckedStays` | src/server/quic.c:568-604 | Until the connection ends, the histories and the delivered bytes of its streams only grow at their end |
| `EngineAcks.AckedByteStays` | src/server/quic.c:568-604 | So a byte that is delivered or held, as an ACK says, stays so until the connection ends |
| `EngineAcks.AckWithoutBytes` | src/server/quic.c:594-603 | A concrete packet (INITIAL, DATA and CLOSE) is answered although its connection is gone |
| `EngineMetrics.StepBalance` | src/server/quic.c:86-162 | One step moves closed + live - opened by one iff it is a packet with INITIAL and CLOSE for an unknown id that got a slot, else not at all |
| `EngineMetrics.MetricsConserved` | src/server/quic.c:102-159 | After every run closed + live = opened + the number of such packets |
| `EngineMetrics.ClosedExceedsOpened` | src/server/quic.c:132-144 | One such packet, from any source, leaves more connections closed than opened |
| `EnginePending.StepSlot` | src/server/quic.c:648-744 | Any pending slot through any step: kept with its packet, freed, or taken for the DATA packet just sent; a slot whose connection ends is never kept |
| `EngineOwnership.PendingInvariant` | src/server/quic.c:648-744 | With DATA sent only through send_to_connection, every in-use entry belongs to a live connection, stores a DATA packet sent to it, and has been sent again fewer than 3 times |
| `EnginePending.PendingStored` | src/server/quic.c:648-733 | After every run, whatever it sends, an in-use entry stores a DATA packet that the run sent and has been sent again fewer than 3 times |
| `EnginePending.PendingDecodes` | src/server/quic.c:658-671 | Its stored bytes deserialize to that DATA packet, with the entry's own connection id and packet number |
| `EnginePending.RetransmissionAddress` | src/server/quic.c:701-721 | Whatever a tick sends is a pending packet and goes to the source of the connection's most recent packet |
| `EnginePending.AttemptsBounded` | src/server/quic.c:689-733 | A pending packet is handed to sendto by ticks at most 3 - retries more times over any events, so at most 1 + 3 times in all |
| `EnginePending.TableEmpties` | src/server/quic.c:689-733 | With no new DATA, as many spaced ticks as retries are left empty the table, whatever else happens between them |
| `EnginePending.PendingEmpties` | src/server/quic.c:689-733 | From every reachable state three ticks, each at least a second after the last, leave nothing pending |
| `EngineOwnership.StepOwned` | src/server/quic.c:355-376 | From a state whose pending packets all have a live connection, they all still have one after a step iff the step is not a direct send of DATA that goes out and is tracked for an id that is not live |
| `EngineOwnership.OwnedIff` | src/server/quic.c:355-376 | Over every run: at every moment all pending packets have their connection iff no event is such a send |
| `EngineOwnership.RawSendStrands` | src/server/quic.c:355-376 | Any DATA packet sent directly as the first thing is pending for no connection |
| `ChunkSender.ChunksPresent` | src/server/websocket.c:209-217 | Every packet of a chunk carries its payload, of 1 to 16384 bytes, DATA alone as flags and the ids asked for |
| `ChunkSender.ChunksArePieces` | src/server/websocket.c:196-231 | Every packet is a piece of the file at its own offset, inside the range asked for |
| `ChunkSender.ChunksCoverRange` | src/server/websocket.c:196-231 | No byte of the range that the file has is left out |
| `ChunkSender.ChunkAt` | src/server/websocket.c:196-231 | The k-th packet is the k-th 16 KiB of the range, or what is left of it, at its offset, with DATA alone as flags and the number (first + k) modulo 2^32 |
| `ChunkSender.ChunkCount` | src/server/websocket.c:200-231 | And there are as many packets as the part of the range that the file has needs |
| `ChunkSender.WireIsPackets` | src/server/websocket.c:218-221 | When all sends succeed the wire carries exactly the serialized packets in order |
| `ChunkSender.SendVideoChunk` | src/server/websocket.c:168-235 | The loop sends the packets of the range one by one until one fails: return code, engine, wire and next packet number; a file that cannot be opened changes nothing |
| `EndToEnd.DeliversPrefix` | src/server/websocket.c:196-231 | Whatever packets of a slice arrive, in whatever order and however often, what is delivered is a prefix of the slice |
| `EndToEnd.CompleteCovers` | src/server/quic_stream.c:112-140 | Once every packet has arrived, exactly the slice is delivered or held |
| `EndToEnd.NextDrain` | src/server/quic_stream.c:112-140 | From then on each further packet drains the next min(16 KiB, rest) |
| `EndToEnd.DrainsOut` | src/server/quic_stream.c:112-140 | So after n more packets min(slice, before + n * 16 KiB) bytes are out |
| `EndToEnd.SliceEndToEnd` | src/server/websocket.c:196-231 | Cut, serialize, reorder and duplicate, deserialize, feed a fresh stream: always a prefix of the slice, and all of it delivered or held when every packet has arrived |
| `EndToEndRuns.WireIsSent` | src/server/quic.c:355-376 | Over every run of an engine, retransmissions and failed sends included, the wire carries only packets without DATA and the serialized DATA packets that the run was given |
| `EndToEndRuns.SendAllWire` | src/server/websocket.c:218-221 | Also when a send fails part-way, the wire carries the serialized packets of the range in order up to there |
| `EndToEndRuns.SendAllIsRun` | src/server/websocket.c:200-231 | The sends of send_video_chunk are events of a run of its engine, with the same state and the same wire |
| `EndToEndRuns.SendAllAddresses` | src/server/websocket.c:218-221 | Every datagram of the range goes to the source of the latest packet of its connection |
| `EndToEndRuns.SendAllStopsAt` | src/server/websocket.c:218-221 | The sending stops at the first call that fails, and every call before has put one packet on the wire |
| `EndToEndRuns.SendAllOkIff` | src/server/quic.c:378-408 | All of a range goes out iff every sendto works, the connection is CONNECTED and was seen in the last 30 seconds at the first call, and no more than 30 seconds pass between calls |
| `EndToEndRuns.EnginesDeliverPrefix` | src/server/websocket.c:196-231 | Two engines: if the sender's run was given only chunks of the slice for the pair and the receiver gets DATA for the pair only from that run's wire, then over every run of the receiver its handler has been given a prefix of the slice |
| `EndToEndRuns.EngineCompletes` | src/server/quic.c:573-592 | Once the history of the pair at the receiving engine holds every chunk, exactly the bytes of the slice are delivered or held |
| `EndToEndRuns.EngineDrains` | src/server/quic.c:573-592 | And while the connection lives, every further payload accepted for the pair drains the next 16 KiB or the rest, so the whole slice comes out |
| `EndToEnd.EngineDeliversPrefix` | src/server/quic.c:573-592 | The same prefix through the receiving engine over every run, whatever else the run brings |
| `WebSocketFrames.MaskedTwice` | src/server/websocket.c:462-469 | Masking twice under the same key gives the data back |
| `WebSocketFrames.ApplyMask` | src/server/websocket.c:462-469 | In place, every byte is exclusive-ored with the key byte of its position modulo 4: the exclusive or of before and after is that byte |
| `Bytes.XorBitIs` | src/server/websocket.c:467 | A bit of the exclusive or is set iff the two bits differ |
| `WebSocketFrames.FrameLayout` | src/server/websocket.c:471-535 | For any bytes that are a frame: final bit, opcode and length stand where section 5.2 of RFC 6455 says, and each payload byte, exclusive-or the byte it was read from, is the mask byte at its position modulo 4 |
| `WebSocketFrames.ReadableIff` | src/server/websocket.c:471-528 | Bytes are a frame iff header, length, mask and payload are all there and the length announced is at most 64 KiB |
| `WebSocketFrames.PrintLayout` | src/server/websocket.c:537-567 | A written frame has its reserved bits 0 and its length in the shortest of the three forms |
| `WebSocketFrames.PrintUndoesParse` | src/server/websocket.c:471-567 | Any frame that is read, with its reserved bits 0 and its length in the shortest form, is what the writer makes of it under the mask that it has |
| `WebSocketFrames.HelloFrames` | src/server/websocket.c:471-567 | The two frames of section 5.7 of RFC 6455 are read as "Hello", and the unmasked one is written so |
| `WebSocketFrames.LengthRoundTrip` | src/server/websocket.c:542-556 | Each of the three length forms is read back as the length and the mask bit it was written for |
| `WebSocketFrames.FrameRoundTrip` | src/server/websocket.c:471-567 | A frame of any 64-bit length, unmasked or under any key, is read back exactly when its payload is at most 64 KiB, and is refused otherwise |
| `WebSocketFrames.StreamRoundTrip` | src/server/websocket.c:471-567 | Any sequence of such frames, masked and unmasked mixed, is read back in order, leaving what follows |
| `WebSocketFrames.Connection.ReadExact` | src/server/websocket.c:597-608 | However the bytes come in, the buffer gets the next of them, or -1 when they run out |
| `WebSocketFrames.Connection.WriteAll` | src/server/websocket.c:610-621 | However few bytes a write takes, all are written in order; when the connection stops taking them, exactly those it took are, and the result is -1 |
| `WebSocketFrames.Connection.ReadFrame` | src/server/websocket.c:471-528 | Reads the frame that the byte format says, from arbitrary read pieces, and stops right after it |
| `WebSocketFrames.Connection.SendFrame` | src/server/websocket.c:537-567 | Writes a final, unmasked frame in the layout of section 5.2 of RFC 6455, or the part of it that the connection takes and -1 |
| `Sha1.ZeroCountIsLeast` | src/server/websocket.c:1389-1400 | The padding of the specification has the fewest zero bytes that leave eight bytes of the last block |
| `Sha1.Sha1Ctx.Schedule` | src/server/websocket.c:1417-1425 | The 80 words are the message schedule of section 6.1.2 of FIPS 180-4 |
| `Sha1.Sha1Ctx.Transform` | src/server/websocket.c:1416-1462 | The in-place rounds are the compression of section 6.1.2, with its round functions and rotations |
| `Sha1.Sha1Ctx.Update` | src/server/websocket.c:1375-1384 | Updates compose: the context stands for the concatenation of all it was given |
| `Sha1.Sha1Ctx.Final` | src/server/websocket.c:1386-1414 | For every message under 2^61 bytes the digest is the compression folded over the padded message of section 5.1.1 |
| `Sha1.Sha1Compute` | src/server/websocket.c:1464-1469 | The three calls together hash the message |
| `Sha1.WordBytesBack` | src/server/websocket.c:1408-1413 | The four bytes that a state word gives to the digest are that word, most significant byte first |
| `Sha1.InitialDigits` | src/server/websocket.c:1361-1373 | The initial state, each word from its low byte on, counts the hexadecimal digits up, down, and on in pairs |
| `Sha1.RoundConstants` | src/server/websocket.c:1433-1450 | The four round constants are the integer parts of 2^30 times the square roots of 2, 3, 5 and 10 |
| `Base64.SymbolIs` | src/server/websocket.c:1472-1473 | The alphabet is that of table 1 of RFC 4648 |
| `Base64.GuidIs` | src/server/websocket.c:26 | The GUID is the text of section 1.3 of RFC 6455 |
| `Base64.EncodedLength` | src/server/websocket.c:1474 | Every input of n bytes becomes 4 * ceil(n / 3) characters |
| `Base64.EncodeRoundTrip` | src/server/websocket.c:1471-1495 | Decoding by section 4 of RFC 4648 gives back every input |
| `Base64.Base64Encode` | src/server/websocket.c:1471-1495 | Fails iff the buffer is too small and then leaves it alone; otherwise writes the encoding and a NUL |
| `Base64.AcceptKey` | src/server/websocket.c:438-460 | The accept value is the Base64 of the SHA-1 of key and GUID; success iff both fit in 127 characters and the output has 29 |
| `KeySchedule.ReadBlock` | src/auth/crypt_blowfish/crypt_blowfish.c:592-609 | Four bytes of the endless repetition of password and NUL become the correct and the sign-extended word, and the sign flag says whether a byte other than the first of a block has its high bit set |
| `KeySchedule.SafetyBitIs` | src/auth/crypt_blowfish/crypt_blowfish.c:625-629 | The branch-free arithmetic gives bit 16 iff nothing differs, the sign was seen and the safety flag is set, else 0 |
| `KeySchedule.SetKey` | src/auth/crypt_blowfish/crypt_blowfish.c:543-643 | Expanded word i is the big-endian word of the repeated password (sign-extended under the bug flag); initial word i is P xor it, except that initial[0] differs by bit 16 when the safety measure acts |
| `KeySchedule.DeviatesIff` | src/auth/crypt_blowfish/crypt_blowfish.c:585-642 | The measure acts iff asked for, some byte that is not first in its block has its high bit set, and all such bytes have only 0xFF before them in their block |
| `KeySchedule.DeviationNeedsFF` | src/auth/crypt_blowfish/crypt_blowfish.c:559-566 | Only passwords that contain 0xFF are affected |
| `KeySchedule.DeviationIsUnique` | src/auth/crypt_blowfish/crypt_blowfish.c:631-642 | No password left alone by the measure, under any flags, starts the cipher in the state of one it acts on |
| `KeySchedule.SevenBitSchedule` | src/auth/crypt_blowfish/crypt_blowfish.c:590-614 | Passwords of 7-bit characters get the same state under all flags |
| `KeySchedule.ExpansionDeterminesHead` | src/auth/crypt_blowfish/crypt_blowfish.c:590-614 | The correct expansion tells two passwords apart iff their first 72 bytes differ |
| `KeySchedule.SameHeadSameSchedule` | src/auth/crypt_blowfish/crypt_blowfish.c:590-614 | Passwords with the same first 72 bytes start from the same state, under all flags |
| `BlowfishText.DecodeUndoesEncode` | src/auth/crypt_blowfish/crypt_blowfish.c:385-439 | BF_decode undoes BF_encode for every size, whatever follows |
| `BlowfishText.EncodeUndoesDecode` | src/auth/crypt_blowfish/crypt_blowfish.c:385-439 | Encoding what was decoded gives the string back with the unused bits of its last character cleared |
| `BlowfishText.DecodesIff` | src/auth/crypt_blowfish/crypt_blowfish.c:376-383 | A string decodes iff each of the characters it needs is in the alphabet |
| `BlowfishText.EncodeSpells` | src/auth/crypt_blowfish/crypt_blowfish.c:409-439 | The characters, six bits each, spell the bytes, eight bits each, filled up with zero bits |
| `BlowfishText.EncodedLength` | src/auth/crypt_blowfish/crypt_blowfish.c:409-439 | n bytes become ceil(8n / 6) characters |
| `BlowfishText.SymbolIs` | src/auth/crypt_blowfish/crypt_blowfish.c:364-365 | The alphabet: dot, slash, capitals, small letters, digits |
| `BlowfishText.BFEncode` | src/auth/crypt_blowfish/crypt_blowfish.c:409-439 | The loop writes exactly the encoding, at its place in the output |
| `BlowfishText.BFDecode` | src/auth/crypt_blowfish/crypt_blowfish.c:385-407 | The loop writes exactly the decoding or returns -1, and never reads past the terminator |
| `BlowfishCrypt.SucceedsIff` | src/auth/crypt_blowfish/crypt_blowfish.c:670-693 | BF_crypt succeeds iff there is room, the head is well formed, the cost is not below the minimum, and the 22 characters after it are in the alphabet |
| `BlowfishCrypt.OutputIs` | src/auth/crypt_blowfish/crypt_blowfish.c:768-776 | 28 characters of the setting, the 29th with its unused bits cleared and 31 of digest are the head followed by the re-encoded salt and the encoded digest |
| `BlowfishCrypt.OutputParses` | src/auth/crypt_blowfish/crypt_blowfish.c:768-776 | A hash is 60 characters and is itself a setting, with the same prefix, cost and salt bytes |
| `BlowfishCrypt.FixedPoint` | src/auth/crypt_blowfish/crypt_blowfish.c:649-779 | Hashing with the resulting hash as setting gives that hash again, for every password, setting and cipher |
| `BlowfishCrypt.PasswordsTruncate` | src/auth/crypt_blowfish/crypt_blowfish.c:695-696 | Passwords with the same first 72 bytes get the same hash |
| `BlowfishCrypt.PrefixesAgree` | src/auth/crypt_blowfish/crypt_blowfish.c:645-696 | A 7-bit password gets the same digest under the four prefixes |
| `BlowfishCrypt.ParsesIff` | src/auth/crypt_blowfish/crypt_blowfish.c:675-688 | A setting is read iff it begins with $2, a subtype, $, a number up to 31 in two digits, and $; that number is its cost |
| `BlowfishCrypt.SubtypeIff` | src/auth/crypt_blowfish/crypt_blowfish.c:645-647 | The subtypes are a, b, x and y |
| `BlowfishInputs.CyclicRepeats` | src/auth/crypt_blowfish/crypt_blowfish.c:592-609 | The bytes that are read are those of the password and its NUL, over and over |
| `BlowfishInputs.CorrectBytes` | src/auth/crypt_blowfish/crypt_blowfish.c:598 | The correct word is four of these bytes, most significant first |
| `BlowfishInputs.BuggyBytes` | src/auth/crypt_blowfish/crypt_blowfish.c:599 | In the sign-extended word every byte that has one above 127 behind it in its four is 0xFF |
| `BlowfishInputs.WordsAre` | src/auth/crypt_blowfish/crypt_blowfish.c:611-642 | Only $2x$ gets the sign-extended words and only $2a$ the safety measure: bit 16 of the first word is inverted iff some byte that is not first of its four is above 127 and the sign extension changes none |
| `BlowfishInputs.CipherIsGiven` | src/auth/crypt_blowfish/crypt_blowfish.c:685-776 | For every cipher: the last 31 characters of a hash are what it makes of the expanded words, the words to start from, the 16 bytes that the 22 salt characters stand for, and two to the power of the two digits |
| `BlowfishInputs.SaltReachesCipher` | src/auth/crypt_blowfish/crypt_blowfish.c:685-703 | With a cipher that gives back salt and rounds, the hash spells the salt of its own setting and its number of rounds |
| `BlowfishInputs.WordsReachCipher` | src/auth/crypt_blowfish/crypt_blowfish.c:695-703 | With ciphers that give back their words, the hash spells each of the eighteen expanded and initial words of the password under the prefix |
| `BlowfishCrypt.BFCrypt` | src/auth/crypt_blowfish/crypt_blowfish.c:649-779 | Writes the 60 characters and a NUL and nothing after them, or leaves the output alone |
| `BlowfishCrypt.SettingParses` | src/auth/crypt_blowfish/crypt_blowfish.c:881-906 | Every generated setting parses back to its subtype, cost and salt bytes |
| `BlowfishCrypt.GenSaltRn` | src/auth/crypt_blowfish/crypt_blowfish.c:881-907 | Success iff 16 random bytes, room for 30, a count of 0 or 4 to 31 and a prefix $2a, $2b or $2y; then the output is the setting, with 0 standing for cost 5 |
| `Bcrypt.TimingSafeStrcmp` | src/auth/bcrypt.c:71-95 | Zero iff the two strings are equal |
| `Bcrypt.OutputMagic` | src/auth/crypt_blowfish/crypt_blowfish.c:781-794 | Writes the failure token |
| `Bcrypt.MagicDiffers` | src/auth/crypt_blowfish/crypt_blowfish.c:786-791 | The failure token differs from the setting it was made for, and never works as a setting |
| `Bcrypt.MagicIs` | src/auth/crypt_blowfish/crypt_blowfish.c:786-791 | The token is *0, or *1 for a setting that begins with *0 |
| `Bcrypt.CryptRn` | src/auth/crypt_blowfish/crypt_blowfish.c:816-879 | The hash iff the setting is accepted and the self-test passes, else the failure token |
| `Bcrypt.HashPw` | src/auth/bcrypt.c:124-129 | 0 and the hash as a C string iff the hash succeeds, else 1 and the failure token |
| `Bcrypt.CheckPw` | src/auth/bcrypt.c:131-141 | -1 iff the stored string is no valid setting or the self-test fails; else 0 iff hashing with it gives it back |
| `Bcrypt.GenSalt` | src/auth/bcrypt.c:97-122 | A failed open, read or close gives its own code and leaves the buffer alone; 16 random bytes give a setting of prefix $2a$ whose cost is the factor, or 12 for one outside 4 to 31 |
| `Bcrypt.HashThenCheck` | src/auth/bcrypt.c:97-141 | Every generated salt is accepted, and the hash it gives accepts the password it was made from |
| `Bcrypt.AcceptedIff` | src/auth/bcrypt.c:131-141 | Against a stored hash a password passes iff the first 23 bytes of its digest are those of the right one |
| `Bcrypt.LongPasswordsCollide` | src/auth/crypt_blowfish/crypt_blowfish.c:590-614 | Two concrete passwords that differ only in their 73rd byte have one hash, under every setting and every cipher |
| `Multipart.FoundNone` | src/server/upload.c:12-22 | Nothing is found iff the needle occurs nowhere |
| `Multipart.FindBytes` | src/server/upload.c:12-22 | The first place where the needle stands; none for an empty needle or text |
| `Multipart.Texts` | src/server/upload.c:64-94 | The fixed texts are those of the form format, spelled out |
| `Multipart.NextPartIff` | src/server/upload.c:58-86 | On every input one pass finds exactly: after the first delimiter, which no "--" follows, a header up to the first empty line, and data up to the next delimiter |
| `Multipart.TrimIs` | src/server/upload.c:84-86 | One CR LF at the end of the data goes, anything else stays |
| `Multipart.HeaderEnds` | src/server/upload.c:67-80 | What stands after the first 511 bytes of a header, or after a NUL in it, does not change what it is taken for |
| `Multipart.CutIs` | src/server/upload.c:95-101 | The stored text is the longest beginning of the data that leaves room for the NUL |
| `Multipart.ReadPart` | src/server/upload.c:59-83 | One pass: delimiter, end mark, end of headers, next delimiter, with every way to leave the loop |
| `Multipart.CopyText` | src/server/upload.c:95-97 | The text, cut to what fits before a NUL |
| `Multipart.ParseMultipart` | src/server/upload.c:41-107 | On every input the loop ends; return code, file buffer, reported length and both strings are those of the parsing function, and a NULL text buffer is passed over |
| `MultipartRoundTrip.NoStraddle` | src/server/upload.c:81-86 | A delimiter without CR and LF does not occur across the end of a line |
| `MultipartRoundTrip.HeaderEnd` | src/server/upload.c:64-66 | The search finds the first empty line, not one that straddles header and data |
| `MultipartRoundTrip.PassFindsPart` | src/server/upload.c:58-86 | From any printed part, one pass finds its header and data and stops at the next delimiter |
| `MultipartRoundTrip.KindRead` | src/server/upload.c:67-102 | A printed header is taken for what it was printed from: a file by its file name, a field by how its name begins |
| `MultipartRoundTrip.KindIsName` | src/server/upload.c:69-98 | A part with a file name is taken for the file; a field for the title or the description iff its name begins with that word |
| `MultipartRoundTrip.LongerNameIsTitle` | src/server/upload.c:94 | A field named titlex is a valid field and is taken for the title |
| `MultipartRoundTrip.ParseIsFold` | src/server/upload.c:58-105 | Parsing a printed form stores its parts in order and nothing else, between any preamble and epilogue |
| `MultipartRoundTrip.RoundTrip` | src/server/upload.c:41-107 | The result is the last title and description cut to their buffers, the last file, and the length of the last file that is not empty |
| `MultipartRoundTrip.FileIffLastNotEmpty` | src/server/upload.c:88-106 | Success with a length that is the buffer's iff there is a file and the last one is not empty; then the buffer is that file |
| `MultipartRoundTrip.StaleLength` | src/server/upload.c:88-93 | A concrete form whose last file is empty is accepted with the length of the file before it |

## Left out

- Threads, the lock, sockets and callbacks: one receive iteration and one public call are one step each. The code
  touches streams and pending entries outside its lock, so finer interleavings are a different model.
- The clock is read once per step; the code reads it again when it adds a connection, tracks a packet or retransmits.
- The outcomes of sendto and of the allocation of a list node are inputs of a step; other allocations succeed.
- EngineCode.QuicEngine.DeliverPayload: the streams of a connection are values of `StreamTable` there; the linked lists
  are proved against the same values in `StreamList`, and the two are not put into one heap.
- StreamList.StreamState.FreeSegments: releasing memory is not modelled, so a leak or a double free would not show.
- The buffer of a list node is a sequence that the node holds, trimmed by assignment instead of memmove.
- The state handler, the packet handler and `quic_engine_get_connection_state`: they only report.
- Addresses are an IP number and a port; the padding of the C structure is not compared.
- Metric counters are unbounded; in the original they are 64 bits wide.
- EngineAcks.AckSafety: assumes a non-empty payload and offset + length < 2^32 for all payloads of the pair, since
  beyond that the 32-bit offset wraps.
- EndToEnd.SliceEndToEnd: for files under 2^32 bytes and from offset 0, as a receiving stream starts there.
- ChunkSender.SendVideoChunk: the file does not change while it is read, and fread gives all that is asked for and
  there, so a read error half-way is not modelled.
- Packet numbers across WebSocket threads: the counter is not updated atomically, so uniqueness is no theorem.
- WebSocketFrames.Connection.Read: a read that fails is the end of the input, and a connection whose writing has failed
  takes no more bytes.
- Masks, shifts and ORs of disjoint bits are remainders, quotients and sums of numbers, except in `Sha1` and
  `KeySchedule`, which work on 32-bit vectors.
- The HTTP part of the WebSocket handshake and the JSON commands: string plumbing.
- Sha1.Sha1Ctx.Final: the digest bytes are the specification's function of the five words, not four stores each.
- Sha1.Sha1Compute: the example digests of the standard are not evaluated; the constants are fixed by lemmas of their own.
- BlowfishCrypt.BFCrypt: the sixteen rounds, the S-boxes and the cost loop are a function parameter, so every result
  holds for any cipher with a 24-byte output; the byte swaps around it are taken as big-endian words.
- Bcrypt.CryptRn: the outcome of the self-test is an input.
- Bcrypt.GenSalt: how opening, reading and closing /dev/urandom go is an input; the retries on EINTR and short reads
  are left out.
- Bcrypt.TimingSafeStrcmp: that it takes the same time for all strings of one length is not stated.
- Extracting the boundary from the content type, writing the file, thumbnails, the database: the rest of the upload.
- `src/server/quic_tls.c`, `src/db/database.c`, `src/auth/session.c`, `src/http/api.c`, `src/server/server.c` and the
  web client: stubs, wrappers and plumbing next to these cores.
