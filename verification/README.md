# SuparnaD: a verified model of the log, the readers and the sessions

SuparnaD is a publish/subscribe broker written in C. A topic is one append-only file. Publishers append
length-prefixed events to it through a RAM buffer (a *chunk*) that writes only its unsaved tail; consumer groups keep
a byte offset into the file and move it by consuming, acknowledging or setting it. This project models that
machinery in Dafny 4.11 and proves what it does over all inputs, all runs and all interleavings, including the places
where it does not do what its documentation says.

Verify everything with `dafny verify dfyconfig.toml`.

## How it is built

Each imperative C function is a method of a class with the same fields (`Chunk`, `Topic`, `Group`, `GroupManager`,
`RequestBuffer`, `ClientSession`, `Socket`), proved equal to a function on values; the laws are lemmas about those
functions, so they hold for the methods.

| file | what it holds |
|---|---|
| `Machine.dfy` | bytes, wrapping `size_t`, little-endian `uint32_t`, `realloc` and `memcpy` |
| `ChunkStore.dfy`, `DeltaSave.dfy`, `Growth.dfy` | the chunk; runs of load, append and save; the doubling buffer |
| `Framing.dfy`, `Cursors.dfy`, `FrameLaws.dfy` | the log format; what each reader and ack does to a cursor; readers on a framed log |
| `AckLaws.dfy`, `PointerBounds.dfy`, `SeedPrefix.dfy` | maximum-style acks; the pointer under wrap-around and failures; the `{}` prefix |
| `Publishing.dfy`, `Groups.dfy`, `GroupTable.dfy` | publishing through a handle; the group operations; the table of groups |
| `Broker.dfy`, `ReaderRuns.dfy` | every interleaving of publishers, sessions and one reading group on one file |
| `Session.dfy`, `Commands.dfy`, `Delivery.dfy`, `Wire.dfy` | which topic and group a session holds; its `CONSUME` and `ACK`; the delivery loop; the bytes on the socket |
| `Json.dfy`, `Upload.dfy`, `Requests.dfy` | the JSON scanner; body reassembly; a publish request from body to file |

## Assumptions

- One chunk operation is one atomic step, and a handle is used by one thread, as the server arranges: every publish
  request and every session opens its own handle.
- `fwrite` writes all of a delta or the file could not be opened; `fclose` succeeds; no file is deleted or truncated.
- Everything else may fail at any point: opening, measuring or reading a file (also short), the opens of the existence
  check, every allocation, every `send` of a packet, every answer of a consumer. These outcomes are parameters of the
  methods and of the moves.
- The machine is little-endian. A file is shorter than 2^63 bytes, which is what `ftell` can report; where a sum
  could wrap before that bound matters, it is modelled with the wrap. `chunk_append` is called for at most 2^63 bytes
  in all: `DoublingEndsExactly` shows that beyond it the C loop never ends.
- C strings contain no terminator; a request body is read up to its first one. JSON text is modelled by characters; a
  stored event has their codes.

## Where the code and its promises part

- `chunk_load` returns 0 when the file cannot be opened and empties the buffer: `RunMirrorsExactly` says exactly when
  RAM and file are in step, `UnopenedLoadBreaksMirror` shows it happen.
- A handle on which the payload append of a publish failed must not be used again: a bare length header is waiting
  (`ReuseAfterFailure`).
- `topic_exists` takes a file that it cannot open for missing. A client whose two looks both fail writes `{}` into the
  middle of a log (`FailedLooksSeedTheLog`). The log stays framed if and only if that does not happen
  (`ExistingTopicStaysFramed`, `LogIsFramedExactly`).
- Two clients that create the same topic at once can both write `{}` (`CreationRaceHappens`); the log is framed exactly
  when that does not happen (`NewTopicIsFramedExactly`). What a group makes of a stray `{}` is `ConsumeAtSeed`.
- Groups start at offset 0 although the first frame of a created topic starts at offset 2 (`ConsumeFromZero`,
  `StuckForever`); what they consume is never the first event. The delivery loop then reports 100 packets sent while it sends none (`NewGroupStarves`).
- The repository's README.md, line 285, describes `ACK` as acknowledging the last consumed packet. `CONSUME` has moved the
  pointer already, and `ACK` passes over one more event, which the group never gets (`AckSkipsTheNextEvent`).
- A client that acknowledges a negative size turns its group back (`NegativeAckRewinds`); `MovesBackExactly` lists every
  input on which an operation does so.
- After a packet that was sent only in part, the loop and the session go on writing to the same socket; the cut packet
  swallows what follows (`CutPacketSwallowsReply`). The bytes can be told apart exactly when every packet went out whole
  (`SessionIsStreamExactly`, `DeliveryIsStreamExactly`).
- A session can use a freed topic if the copy of a group id fails at a bad moment
  (`FailedCopyLeadsToFreedTopic`); `SoundExactly`, `SoundOverRunsExactly` and `SoundIsWeakest` say when it cannot.
- With three or more members, a value that looks like a later key can hijack its lookup (`ThirdMemberHijacked`); with
  keys of 254 or more characters so can another key (`LongKeyFails`). `LookupIsRightExactly` and `KeyLengthIsExact` give
  the exact conditions. The key limit concerns later callers only: the function is static and is called with `topic` and
  `data`, so no client supplies a key. The two documented members are always read right (`TwoMembersAreSafe`).

## Model

| member | source | states |
|---|---|---|
| Machine.DecodeEncode | src/messaging/consume_packet.c:27-34 | the length read back from a header is the length that was written, for every `uint32_t` |
| Machine.EncodeDecode | src/messaging/publish_event.c:24-26 | every four header bytes are the encoding of the length they hold |
| Machine.Memcpy | src/writer/read_write_data.c:117 | a copy replaces exactly its target range and keeps the rest of the block |
| ChunkStore.Chunk.constructor | src/writer/read_write_data.c:8-32 | a new chunk is empty, with no buffer and nothing saved |
| ChunkStore.Chunk.Load | src/writer/read_write_data.c:46-93 | success replaces the RAM by the file; an unopenable file empties it and still returns 0; a short read overwrites the front and keeps the sizes; the other failures change nothing |
| ChunkStore.Chunk.Append | src/writer/read_write_data.c:95-122 | success adds exactly the bytes behind the content and grows to the first doubling that fits; failure changes nothing |
| ChunkStore.Chunk.NextCapacity | src/writer/read_write_data.c:102-106 | the 64-bit doubling loop ends, without wrapping, at the first doubling that reaches the required size |
| ChunkStore.Chunk.Read | src/writer/read_write_data.c:124-141 | returns the bytes from the offset, cut at the end of the content |
| ChunkStore.Chunk.SaveDelta | src/writer/read_write_data.c:143-174 | the file grows by exactly the unsaved tail, or nothing changes when it cannot be opened |
| DeltaSave.StepMirrors | src/writer/read_write_data.c:46-174 | one operation keeps RAM and file in step exactly unless it is a load that cannot open a non-empty file |
| DeltaSave.RunMirrorsExactly | src/writer/read_write_data.c:46-174 | over every run of loads, appends and saves with any failures, the saved part of the RAM is the file if and only if no such load happened since the last complete one |
| DeltaSave.UnopenedLoadBreaksMirror | src/writer/read_write_data.c:51-57 | a concrete load that reports success and leaves RAM and file out of step |
| DeltaSave.ShortReadMixes | src/writer/read_write_data.c:77-87 | a short read leaves the bytes it read over the front of the old content, and the old sizes |
| DeltaSave.BlockNeverShrinks | src/writer/read_write_data.c:68-76 | over every run the block never shrinks, so a file that once fitted is loaded again without memory |
| DeltaSave.DeltaWriteIsWholeWrite | src/writer/read_write_data.c:143-174 | on a mirrored handle the delta write leaves the file that rewriting it from RAM would leave |
| DeltaSave.SavesAreInvisible | src/writer/read_write_data.c:143-174 | dropping the saves from a load-free run keeps RAM, capacity and the file with what is waiting behind it |
| DeltaSave.ExtraSavesChangeNothing | src/writer/headers/read_write_data.h:64-68 | extra saves anywhere in a load-free run do not change the file that the final save produces |
| Growth.GrowthIsAmortised | src/writer/read_write_data.c:102-114 | over every run of appends the block stays within twice its content, all copying together costs no more than the final block, and the content is everything accepted |
| Growth.FreshChunkGrowth | src/writer/read_write_data.c:8-32 | the same from a fresh chunk: capacity at most max(1024, 2 * size) |
| Growth.FilledIsPowerSized | src/writer/read_write_data.c:103-106 | the block of a chunk that was only appended to is absent or a power of two from 1024 on |
| Growth.DoublingEndsExactly | src/writer/read_write_data.c:103-106 | from a power-of-two capacity the wrapping doubling loop reaches the required size if and only if that is at most 2^63 |
| Framing.FrameAt | src/messaging/publish_event.c:24-32 | at boundary i of a framed log stand the length and then the bytes of event i |
| Framing.FramedGrows | src/messaging/publish_event.c:26-36 | appending whole frames keeps a log framed and every boundary where it was |
| FrameLaws.HeaderAtFrame | src/messaging/consume_packet.c:38-65 | at boundary i the length field is that of event i, behind it stands the event, and at the end of the log there is none |
| FrameLaws.FinishAtBoundary | src/messaging/consume_packet.c:89-130 | from its second load on, a consume at boundary i delivers event i and stops at boundary i + 1 exactly when the event, the file and memory are there |
| FrameLaws.ConsumeAtBoundary | src/messaging/consume_packet.c:67-131 | the same for the whole of `consume_packet`, whatever its two loads see |
| FrameLaws.HasMoreForetellsConsume | src/messaging/manage_groups.c:217-232 | on a framed log the data check is true exactly when the next consume succeeds |
| FrameLaws.DrainInvertsFrames | src/messaging/consume_packet.c:67-131 | repeated consumes from boundary i return exactly the events from i on, then NULL |
| FrameLaws.FramingIsUnique | src/messaging/consume_packet.c:9-36 | a log has at most one framing from a given base |
| FrameLaws.WalkFrames | src/messaging/ack_packet.c:116-139 | the ack loop passes min(n, frames left) frames and stops on a boundary |
| FrameLaws.BatchAtBoundary | src/messaging/ack_packet.c:98-148 | a batch ack of n moves from boundary i to boundary min(i + n, N), also on partial failure, and returns 0 exactly when i + n <= N |
| FrameLaws.WalkComposes | src/messaging/ack_packet.c:119-139 | on any bytes, m + n passes of the ack loop are m passes followed by n |
| FrameLaws.BatchesCompose | src/messaging/ack_packet.c:98-148 | on any file, batch acks of m and n leave the pointer of one of m + n and both succeed exactly when that does |
| FrameLaws.BatchMovesLikeConsumes | src/messaging/ack_packet.c:98-148 | on a framed log a batch ack of n moves as far as n consumes |
| FrameLaws.SizedAckAgreesExactly | src/messaging/ack_packet.c:39-65 | an ack by size does what stepping over one frame does if and only if the size is that frame's |
| FrameLaws.SizesAgreeWithFrames | src/messaging/ack_packet.c:150-185 | an ack by the frames' own sizes equals a batch ack of as many frames |
| FrameLaws.AckOfFrame | src/messaging/ack_packet.c:8-37 | acknowledging frame i's packet from boundary j, by packet or by offset, moves to boundary max(j, i + 1) |
| AckLaws.AcksTakeMaximum | src/messaging/ack_packet.c:67-96 | after any acks by packet or offset the pointer is the maximum of its start and the accepted packet ends, even when sums wrap |
| AckLaws.AckOrderIsIrrelevant | src/messaging/ack_packet.c:8-37 | ack runs with the same members end alike: order and repetition do not matter |
| AckLaws.AckAfterConsumeIsIdle | src/messaging/consume_packet.c:127-128 | acknowledging the packet just consumed succeeds and changes nothing |
| PointerBounds.PointerStaysInside | src/messaging/manage_groups.c:136-215 | over every run of all operations, with any wraps and failing loads, the read pointer stays inside the growing file |
| PointerBounds.MovesBackExactly | src/messaging/ack_packet.c:57-64 | the exact inputs on which an operation other than setting turns the pointer back |
| PointerBounds.NegativeAckRewinds | src/socket/server_event_handler.c:138-149 | an `ACK` that names a negative size succeeds and rewinds the group by that size less the header |
| PointerBounds.SetThenRead | src/messaging/manage_groups.c:136-156 | setting the pointer and reading gives the bytes of the file from there on and stops behind them |
| PointerBounds.ConsumeSizedExactly | src/messaging/consume_packet.c:133-183 | the n raw bytes at the pointer if and only if n is allowed, as many are there and memory is; otherwise nothing |
| PointerBounds.ConsumeSizedTakesFrame | src/messaging/consume_packet.c:133-183 | with the size of a whole frame it returns header and payload and goes where `consume_packet` goes |
| PointerBounds.FailedLoadMovesNothing | src/messaging/ack_packet.c:21-23 | an operation whose load fails reports failure and moves nothing |
| PointerBounds.UnopenedLooksEmpty | src/writer/read_write_data.c:51-57 | to every operation a file that cannot be opened looks like an empty one, so setting and advancing go to 0 |
| PointerBounds.EmptyAcksAreRefused | src/messaging/ack_packet.c:39-42 | acks of nothing or with a zero size are refused whatever the load shows |
| PointerBounds.ReadsCompose | src/messaging/manage_groups.c:193-215 | reading m and then n bytes gives the bytes and the place of reading m + n |
| PointerBounds.AdvancesCompose | src/messaging/manage_groups.c:166-187 | without a wrap, advances add up and stop at the end of the file |
| SeedPrefix.MisreadHeader | src/messaging/create_topic.c:101-108 | the length read at a `{}` is 32123 + 65536 * (L mod 65536) when the event behind it has L bytes |
| SeedPrefix.ConsumeAtSeed | src/messaging/consume_packet.c:85-128 | a consume at a `{}` succeeds exactly when L mod 65536 < 160 and the log holds the misread length; it never returns the event behind it, and the pointer stops at the misread length |
| SeedPrefix.ConsumeFromZero | src/messaging/manage_groups.c:59-61 | the same for every new group on a created topic, which starts at offset 0 |
| SeedPrefix.StuckForever | src/messaging/consume_packet.c:94-100 | with L mod 65536 of 160 or more no later publish ever unblocks a group at a `{}`, while its data check stays true |
| SeedPrefix.DrainAfterSeed | src/messaging/manage_groups.c:136-156 | after setting the pointer to 2, draining a created topic returns all its events |
| Publishing.Topic.Publish | src/messaging/publish_event.c:10-39 | every branch of `publish_event`: code, RAM and file for every failing step |
| Publishing.Topic.PublishBatch | src/messaging/publish_event.c:81-112 | the batch loop stops at the first bad item or failed append and saves only at its end |
| Publishing.Topic.Flush | src/messaging/publish_event.c:114-125 | a flush is one delta write |
| Publishing.Topic.Size | src/messaging/publish_event.c:127-142 | the size of the file as the load shows it; 0 when it fails |
| Publishing.CreateTopic | src/messaging/create_topic.c:77-155 | a topic is made exactly when the existence check sees no file, the name is not empty and every step succeeds; the file gains `{}` exactly when the save is reached and opens, also if it was there and could not be opened |
| Publishing.PublishIsAtomicOnDisk | src/messaging/publish_event.c:10-39 | code 0 means the file gained what was waiting and one whole frame; any other code means it did not change |
| Publishing.BatchIsAtomicOnDisk | src/messaging/publish_event.c:81-112 | the same for a batch and all its frames in order |
| Publishing.PublishSucceedsExactly | src/messaging/publish_event.c:10-39 | 0 if and only if the event has 1 to 10485760 bytes, both parts find memory and the file opens; -2 exactly for larger events |
| Publishing.BatchSucceedsExactly | src/messaging/publish_event.c:81-112 | 0 if and only if there is an item, all are valid, all find memory one after the other and the file opens |
| Publishing.RoomIsThere | src/writer/read_write_data.c:102-114 | items find memory if every allocation succeeds, and without any allocation if the block holds them all |
| Publishing.BatchEqualsSingles | src/messaging/publish_event.c:81-112 | from a handle with nothing waiting, a batch succeeds exactly when single publishes of its items all do, and leaves the same RAM, block and file |
| Publishing.InvalidItemLeavesFramesWaiting | src/messaging/publish_event.c:91-105 | an invalid item k leaves the file alone and exactly k frames waiting, which a later publish writes first and a load discards |
| Publishing.ReuseAfterFailure | src/messaging/publish_event.c:26-36 | on a reused handle a later publish lands right if and only if the failed one stopped before its header, and brings the failed event along if and only if only its save failed |
| Publishing.SaveCodeTellsExactly | src/writer/read_write_data.c:143-174 | a save reports 0 exactly when nothing is left waiting, also when nothing was and the file cannot be opened |
| Publishing.FlushCompletesPublish | src/messaging/publish_event.c:114-125 | a flush behind a successful publish cannot fail and changes nothing; behind one whose save failed it brings the event to the disk |
| Publishing.AllSucceedExactly | src/messaging/publish_event.c:81-112 | a run of publishes and batches succeeds throughout if and only if no batch is empty, all items are valid and find memory one after the other |
| Publishing.RoundTrip | src/messaging/publish_event.c:81-112 | every such run succeeds, and draining then returns the old events and exactly the published ones |
| Groups.CreateGroup | src/messaging/manage_groups.c:43-64 | a group exists exactly with a non-empty id, a topic and memory; it starts at offset 0 |
| Groups.Group.PeekSize | src/messaging/consume_packet.c:38-65 | the length at the pointer when the loaded buffer holds a header there |
| Groups.Group.Consume | src/messaging/consume_packet.c:67-131 | packet, pointer and last size after its two loads, for every failing step; nothing changes without its topic |
| Groups.Group.ConsumeSized | src/messaging/consume_packet.c:133-183 | reads raw bytes of the given size and moves behind them, or does nothing |
| Groups.Group.AckPacket | src/messaging/ack_packet.c:8-37 | moves forward to the packet's end when that is inside the file |
| Groups.Group.AckBySize | src/messaging/ack_packet.c:39-65 | adds header and size when the wrapped sum is inside the file |
| Groups.Group.AckByOffset | src/messaging/ack_packet.c:67-96 | moves forward to offset, header and size when that is inside the file |
| Groups.Group.WalkFrames | src/messaging/ack_packet.c:116-139 | the in-place loop computes how many frames can be passed and where that ends |
| Groups.Group.AckBatch | src/messaging/ack_packet.c:98-148 | moves over as many frames as there are, up to the count |
| Groups.Group.AckBatchBySize | src/messaging/ack_packet.c:150-185 | adds the wrapped total of the sizes, refuses a zero size |
| Groups.Group.SetPointer | src/messaging/manage_groups.c:136-156 | sets the pointer, cut at the end of what the load shows |
| Groups.Group.Advance | src/messaging/manage_groups.c:166-187 | adds to the pointer with wrap, cut at the end of what the load shows |
| Groups.Group.ReadFrom | src/messaging/manage_groups.c:193-215 | returns the bytes at the pointer and moves behind them |
| Groups.Group.HasMore | src/messaging/manage_groups.c:217-232 | whether the load shows bytes behind the pointer |
| GroupTable.GroupManager.constructor | src/messaging/manage_groups.c:8-24 | an empty table for 16 groups |
| GroupTable.GroupManager.Find | src/messaging/manage_groups.c:122-134 | finds a listed group with the id, or none has it |
| GroupTable.GroupManager.Add | src/messaging/manage_groups.c:66-98 | appends a group with a new id, doubling a full block without losing anyone |
| GroupTable.GroupManager.Remove | src/messaging/manage_groups.c:100-120 | removes exactly the group with the id; the others keep their order |
| GroupTable.ShiftDown | src/messaging/manage_groups.c:109-111 | the inner loop moves every later group down by one place |
| GroupTable.MapLooksUp | src/messaging/manage_groups.c:122-134 | the table read as a map gives for each id the group that the search finds |
| GroupTable.TableRefinesMap | src/messaging/manage_groups.c:79-120 | over every run of additions and removals ids stay distinct, the table fits its block, and it equals a map that the same operations maintain |
| GroupTable.RemoveKeepsOrder | src/messaging/manage_groups.c:105-115 | removing leaves exactly the groups with other ids, in their order |
| GroupTable.AddCodesTell | src/messaging/manage_groups.c:79-98 | -2 exactly for an id that is there, 0 exactly when the group is now last, -1 exactly for a full table without memory; a refusal changes nothing |
| GroupTable.TableStaysSized | src/messaging/manage_groups.c:66-77 | over every run the block has 16 * 2^k places |
| Broker.MoveKeepsInv | src/api/publish_event.c:114-161 | every move of every client, failing looks included, keeps what each handle has waiting: nothing, `{}`, a header or a whole frame |
| Broker.RunWrites | src/writer/read_write_data.c:143-174 | over every run at all the file grows by exactly the `{}` and the frames saved, in save order |
| Broker.RunWritesFrames | src/messaging/publish_event.c:10-39 | a run that saves no `{}` appends exactly the frames of the successful requests |
| Broker.LogIsFramedExactly | src/messaging/create_topic.c:82-112 | from every reachable state, a framed log stays framed with exactly the successful requests if and only if no `{}` is saved |
| Broker.OneLookKeepsSeedsOut | src/messaging/create_topic.c:135-155 | an existing file gets no `{}` unless one client fails to open it in both of its looks |
| Broker.ExistingTopicStaysFramed | src/api/publish_event.c:201-256 | for every interleaving of publishers and sessions with any failures, the log is the old one and then the frames of exactly the requests whose save succeeded, in save order, if and only if no `{}` was saved; none is saved if no client fails both looks |
| Broker.RequestCanComplete | src/api/publish_event.c:201-221 | from every reachable state a request that is not over completes by at most seven moves of its own, and the file has then grown by exactly its frame (behind `{}` on a new topic) |
| Broker.CanPublishExactly | src/messaging/publish_event.c:10-39 | after a move a publisher can still save its event, by some continuation, if and only if the move was not one of the listed failures |
| Broker.SavesOnce | src/api/publish_event.c:221-256 | over every run a request saves at most one event, and none once it is over |
| Broker.FailedLooksSeedTheLog | src/messaging/create_topic.c:145-154 | a client that cannot open an existing file twice turns it into the file with a `{}` behind it |
| Broker.SavedEventsAreReadBack | src/messaging/consume_packet.c:67-131 | draining after any run that saved no `{}` returns the old events and then exactly the successful requests |
| Broker.NewTopicIsFramedExactly | src/messaging/create_topic.c:82-112 | on a topic that the clients create, the log is framed from offset 2 if and only if every `{}` was saved to a missing file |
| Broker.CreationRaceHappens | src/api/publish_event.c:119-159 | an interleaving of two clients that leaves two `{}` and no framing |
| ReaderRuns.AckCommandSteps | src/socket/server_event_handler.c:138-162 | at a boundary the socket `ACK` passes one frame or does nothing, also when it names the next frame's size |
| ReaderRuns.ReaderStaysOnTrack | src/socket/server_event_handler.c:91-163 | over every interleaving that saves no `{}` a group stays on a boundary, gets an in-order duplicate-free selection of the published events, and has passed one frame per consumed event and per successful ack |
| ReaderRuns.SceneIsFramedExactly | src/messaging/create_topic.c:82-112 | and those are exactly the interleavings in which the log under it stays framed |
| ReaderRuns.NextEventIsTaken | src/socket/server_event_handler.c:102-108 | where there is a next event, an undisturbed `CONSUME` takes it |
| ReaderRuns.ConsumeOnlySkipsNothing | src/socket/server_event_handler.c:91-125 | in such a run without successful acks the group gets every event from its start on |
| ReaderRuns.AckSkipsTheNextEvent | src/socket/server_event_handler.c:153-158 | `CONSUME` then `ACK` delivers one event and passes two |
| Session.ClientSession.SetGroup | src/socket/server_event_handler.c:183-203 | the session after `SET_GROUP`, for every failing copy or allocation |
| Session.ClientSession.SetTopic | src/socket/server_event_handler.c:204-244 | the session after `SET_TOPIC`, for an existing or a missing file and every failure |
| Session.SoundExactly | src/socket/server_event_handler.c:183-250 | a command keeps the session sound exactly unless it is a `SET_GROUP` whose id copy fails while an old group is left without a topic |
| Session.SoundOverRunsExactly | src/socket/server_event_handler.c:276-331 | over every run the session is sound throughout if and only if that command never comes in the state it needs |
| Session.NoFreedTopicIsUsed | src/socket/server_event_handler.c:91-163 | without that command `CONSUME` and `ACK` touch only the live topic, and the group is attached to it under the current id |
| Session.NoTopicIsFreedTwice | src/socket/server_event_handler.c:215-218 | a command frees at most the live topic, which was not freed before |
| Session.OldTopicIsFreedExactly | src/socket/server_event_handler.c:215-235 | when `SET_TOPIC` leaves the session a topic; the old one is freed exactly when the new one was found, and otherwise by no later command |
| Session.SoundIsWeakest | src/socket/server_event_handler.c:165-250 | soundness is exactly the condition from which every run with working id copies stays current |
| Session.FailedCopyLeadsToFreedTopic | src/socket/server_event_handler.c:189-199 | a five-command run that ends in the use of a freed topic |
| Session.TopicAndGroupCommute | src/socket/server_event_handler.c:183-244 | with nothing failing, on a topic that is there or not, the two commands reach the same state in either order, and `CONSUME` then uses the new topic |
| Delivery.SendAndConfirm | src/socket/consumer_handler.c:85-100 | the bytes the network takes of the packet go out; the ack moves the cursor only behind a whole packet and a confirmation |
| Delivery.ConsumeAndSend | src/socket/consumer_handler.c:70-104 | code, handle, cursor and socket bytes of one attempt, each a function of the failures; 0 also when there was no packet |
| Delivery.DeliveryLoop | src/socket/consumer_handler.c:136-165 | the loop terminates; its result, handle, cursor and every byte on the socket are those of the played environments |
| Delivery.HandleConsumerRequest | src/socket/consumer_handler.c:126-166 | the same with the checks before the loop |
| Delivery.LoopIsBounded | src/socket/consumer_handler.c:136-165 | at most 300 attempts; the result is the number of acknowledged packets exactly when no attempt came back empty |
| Delivery.PassAtBoundary | src/socket/consumer_handler.c:70-104 | for every fault: which attempts send the next event, which are acknowledged, and where the pointer stops |
| Delivery.LoopStopsExactly | src/socket/consumer_handler.c:136-165 | on a framed log with healthy loads the loop attempts the events one by one and stops at the first moment when 100 are acknowledged, three in a row were not, or none is left |
| Delivery.UnseenRoundEnds | src/socket/consumer_handler.c:141-145 | a first load that does not show the file ends the loop, whatever there is to deliver |
| Delivery.DeliversInOrder | src/socket/consumer_handler.c:141-165 | on a framed log with healthy loads each event is attempted at most once and in order, the pointer moves over exactly the attempted frames, and the result counts the acknowledged ones |
| Delivery.DeliversAll | src/socket/consumer_handler.c:141-165 | and if the network takes every packet whole and the consumer confirms it, the result is min(100, events left) |
| Delivery.DeliveryIsStreamExactly | src/socket/consumer_handler.c:147-158 | the bytes of a delivery are the stream of its packets if and only if the network took each of them whole |
| Delivery.StuckLoopReportsHundred | src/socket/consumer_handler.c:80-83 | from an unreadable cursor with data behind it the loop reports 100, sends nothing and does not move |
| Delivery.NewGroupStarves | src/socket/consumer_handler.c:141-151 | this happens to every new group on a created topic whose first event has 160 or more bytes modulo 65536 |
| Commands.HandleConsume | src/socket/server_event_handler.c:91-125 | handle, cursor, code and the bytes of the reply or the packet of `CONSUME` in every case, as functions of the failures |
| Commands.HandleAck | src/socket/server_event_handler.c:127-163 | the same for `ACK` and its two tries |
| Commands.ConsumeSaysNextExactly | src/socket/server_event_handler.c:102-124 | at boundary i, for every fault: `CONSUME` sends event i and stops at boundary i + 1 if and only if there is one, its three loads show the file and memory is there; otherwise it says so and nothing moves |
| Commands.AckSaysExactly | src/socket/server_event_handler.c:138-162 | at boundary i, for every fault: when `ACK` passes over event i and says success, and when it says failure and nothing moves |
| Commands.AckSaysWhatItDid | src/socket/server_event_handler.c:144-162 | on any file the success reply goes with code 0 and the error reply with -1 |
| Commands.SessionIsQueue | src/socket/server_event_handler.c:91-163 | serving any sequence of `CONSUME`, `ACK` and other commands, with publishes in between and nothing failing, refines a queue: the client is told exactly the queue's answers |
| Commands.ConsumesSayEvents | src/socket/server_event_handler.c:108-115 | in particular n `CONSUME`s say the next n events in order |
| Commands.ServeSession | src/socket/server_event_handler.c:295-325 | the command loop of a session whose group serves its topic, with others appending in between: everything sent is what the served requests say, in order |
| Commands.SessionIsStreamExactly | src/socket/server_event_handler.c:91-163 | the bytes of a session are the stream of its packets and replies if and only if every packet went out whole |
| Wire.SendPacket | src/socket/consumer_handler.c:38-68 | exactly the bytes that the network takes go out; the code is 0 exactly when it takes the header at once and the payload in positive pieces |
| Wire.SentWholeExactly | src/socket/consumer_handler.c:29-64 | what goes out is the whole packet exactly in that case, otherwise a proper beginning |
| Wire.WholeExactly | src/socket/consumer_handler.c:29-64 | a packet goes out whole if and only if its 8 header bytes are taken at once and then positive pieces that cover the payload |
| Wire.CutPacketExactly | src/socket/consumer_handler.c:49-60 | otherwise what goes out stops behind the pieces before the first that is not positive |
| Wire.PacketLayout | src/socket/consumer_handler.c:22-27 | the magic bytes `KCAP`, the little-endian length, the payload |
| Wire.CodesArePrefixFree | src/socket/consumer_handler.c:17-36 | no packet or reply line is the beginning of another |
| Wire.StreamIsInjective | src/socket/consumer_handler.c:17-68 | different sequences of packets and replies never give the same bytes |
| Wire.RepliesAreLines | src/socket/server_event_handler.c:96-162 | every reply of the handlers is one line that starts with a brace |
| Wire.RepliesDiffer | src/socket/server_event_handler.c:96-162 | a client can tell all replies apart |
| Wire.SpeechIsStreamExactly | src/socket/consumer_handler.c:17-68 | what a handler sends is the stream of what it means if and only if every packet goes out whole |
| Wire.CompleteSpeechIsDecodable | src/socket/consumer_handler.c:17-68 | and then equal bytes mean equal packets and replies |
| Wire.CutPacketSwallowsReply | src/socket/consumer_handler.c:48-64 | a packet cut behind its header and a reply as long as its payload look like one whole packet that holds the reply |
| Json.ExtractJsonString | src/api/publish_event.c:61-112 | the scanning loops compute the value behind the first match and the next colon |
| Json.ScanWellEscaped | src/api/publish_event.c:88-100 | the scan of a well-escaped body stops at its closing quote |
| Json.SearchMembers | src/api/publish_event.c:69-111 | what a search in the members of a document finds, member by member |
| Json.ValueBehindExactly | src/api/publish_event.c:79-98 | behind a colon the scanner returns `v` if and only if white space and a string literal with the value `v` stand there |
| Json.ExtractExactly | src/api/publish_event.c:61-112 | for every text at all: the scanner returns `v` if and only if from the first quoted key on the next colon is followed by a string literal `v`; in all other cases NULL |
| Json.FirstMemberExactly | src/api/publish_event.c:84-98 | a first member with the key yields `v` if and only if its value is the string literal `v`; a number, nothing or an unclosed string yields NULL |
| Json.WhiteSpaceBeforeValue | src/socket/server_event_handler.c:56-58 | the white space of section 2 of RFC 8259 never hides a value from the request handlers; from the socket's copy it does so exactly when it has a line break |
| Json.ExtractIsLookup | src/api/publish_event.c:61-112 | for every document of string members and every key that fits, the scanner returns the value of the first member with the key or behind the first mimic |
| Json.TwoMembersAreSafe | src/api/publish_event.c:179-180 | with two members and distinct keys each key gets its own value, whatever the values are |
| Json.LookupIsRightExactly | src/api/publish_event.c:69-77 | in larger documents a key gets its value if and only if the value behind the first earlier mimic is the same |
| Json.ThirdMemberHijacked | src/api/publish_event.c:69-77 | a three-member document that yields the wrong value |
| Json.LongKeyFails | src/api/publish_event.c:66-67 | a key of 254 or more characters, cut by its buffer, yields another member's value |
| Json.KeyLengthIsExact | src/api/publish_event.c:66-67 | the second member is found for all first members and values if and only if its key has at most 253 characters |
| Upload.RequestBuffer.Append | src/api/publish_event.c:31-59 | an accepted piece is added behind the body; a rejected one changes nothing |
| Upload.BodyIsAcceptedPieces | src/api/publish_event.c:31-59 | over every sequence of pieces the body is the accepted ones in order, at most 10 MiB, in a buffer of 0 or 4096 * 2^k bytes with k at most 12 |
| Upload.WholeBodyArrivesExactly | src/api/publish_event.c:36-39 | with memory at hand a body arrives complete, however it is cut, if and only if it has at most 10485760 bytes |
| Upload.FullBlockRefuses | src/api/publish_event.c:41-51 | without memory a piece is taken exactly when the block holds it |
| Requests.GetOrCreateTopic | src/api/publish_event.c:114-161 | a handle of its own with nothing waiting; the file gains `{}` exactly when neither look saw it and the save opened |
| Requests.HandlePublish | src/api/publish_event.c:171-257 | the answer and the files: a published request adds one frame with its data (behind `{}` if it created the file or could not open it twice), every other answer adds no frame, and no other file changes |
| Requests.RequestFieldsAreExact | src/api/publish_event.c:177-180 | a request with the two documented members, in either order and with any white space, names exactly its topic and data |
| Requests.FieldsExactly | src/api/publish_event.c:179-191 | for every body: it is taken if and only if it says both strings before its first terminator, every other is answered 400 |
| Requests.NonStringIsBadRequest | src/api/publish_event.c:84-86 | a request whose first member is one of the two and has no string as its value is answered 400 |
| Requests.NumberIsBadRequest | src/api/publish_event.c:84-98 | so are numbers, bare words, nothing at all and strings that are never closed |
| Requests.SmoothRequestsGoThrough | src/api/publish_event.c:201-256 | when nothing fails, a request goes through exactly when its data fits an event and its topic is there or has a name |
| Requests.PublishedDataIsRead | src/messaging/consume_packet.c:67-131 | after a successful request, draining returns the old events and then the data |

## Left out

- Compression (`publish_event_compressed`, encoder.c): a wrapper around a library that is not part of this model.
- The HTTP daemon, routing and response texts, and the create-topic endpoint, which repeats the same buffer and scanner.
- Accepting connections, threads, reading and splitting commands, `atoi`: commands arrive parsed, with their outcomes.
- Mutexes: each chunk operation is one step. One handle shared between threads is not covered.
- Short `fwrite`, failing `fclose`, deletion and truncation of files, `delete_topic`.
- Paths, directory creation and file names: a topic name stands for its file.
- The terminator written behind a request body, leaks, logging and prints.
- Unescaping: the code stores the text between the quotes as written, and so does the model.
- ReaderRuns.ReaderStaysOnTrack: an `ACK` that names a size is covered when the size is that of the next frame;
  `SizedAckAgreesExactly` shows that every other size does something else, and the client chooses it freely.
- Session.ClientSession.SetTopic: topics and groups are numbered by allocation instead of being `Topic` and `Group`
  objects, because a freed object has to remain nameable to say that it is not used; the objects' own operations are in
  `Groups.dfy`, `Delivery.dfy` and `Commands.dfy`.
- Commands.SessionIsQueue: nothing fails, and an `ACK` names no size; `ConsumeSaysNextExactly` and `AckSaysExactly` have
  every fault and the size of the next event.
- Commands.ServeSession: the commands that set topic and group appear by their replies; what they do to the session
  is in `Session.dfy`. Between them a session keeps one group and one topic.
- Wire.Socket.Reply: a reply is taken to go out whole; the code ignores the result of that `send`.
- GroupTable.GroupManager.Remove: the record's memory is not modelled, so neither is its release.
