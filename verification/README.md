# Models of the gateway programs

Dafny models of the Linux gateway programs in this repository, and proofs about them. The flags
`--resource-limit 2000000 --warn-contradictory-assumptions` suit `dafny verify dfyconfig.toml`.

- **Control plane** (`ControlPlane`, `ControlPlaneSafety`, `ControlPlaneReplies`,
  `ControlPlaneLevels`, `ControlPlaneOutcomes`, `ControlPlaneOrder`, `ControlPlaneSlots`): gatewayd as
  a transition system. The I/O thread and any number of workers interleave at the granularity of the
  locked sections; descriptors are reused. Failed epoll registration and unknown priorities are steps
  of the model, not assumptions. One invariant is kept by all seventeen steps; the theorems are about
  whole runs.
- **Control-plane framing** (`Checksum`, `ControlFraming`, `ClientFraming`, `ControlSender`,
  `ControlConnection`, `Rings`, `Sessions`): the three-stage readers of server and client, the outgoing
  ring with partial sends, the task rings and the session table, each as a value-level specification
  and, but for the client's reader, as a class that updates its fields in place and is proved against
  it.
- **Gateway protocol** (`Bytes`, `Crc`, `CrcPolynomial`, `CrcCheck`, `Frames`, `FrameWire`,
  `FrameReader`, `Requests`, `RequestTexts`, `Routing`, `RoutingDelivery`, `LinkedQueues`,
  `TokenBucket`, `Lists`): frames under arbitrary segmentation, the table-driven CRC-32 against
  the bit-at-a-time one and against polynomial division, requests from one end to the other, routing by
  slot and generation, the linked queues and the rate limiter.
- **JSON codec** (`Utf`, `Json`, `JsonLayout`, `JsonParse`, `JsonNumbers`, `JsonStrings`,
  `JsonDocuments`, `JsonRoundTrip`, `JsonReprint`, `JsonParser`, `JsonPrinter`, `ItemList`): the
  parser's and printer's specifications, the round trip between them and the parser against the
  grammar of JSON, both over their mutable buffers, and the doubly linked item list on the heap.
- **Shared memory** (`SharedBuffer`): the bounded buffer with any number of processes between the
  non-atomic steps of its semaphores and mutex.
- **Settings file** (`ConfigFile`, `ConfigTool`, `ConfigCrash`): the rewritten file as a map, the
  loops that cut the buffer in place, and what the file holds wherever the tool stops.

Fields marked as history in a state (the peer behind a descriptor, the serial number of a frame, what
was written and read) are there to state who gets what; no guard of a step depends on them.

Where the code and what is said about it disagree, the model follows the code:

- `cJSON_PrintPreallocated` is documented to need five bytes more than the text; two are enough, and
  needed (`JsonPrinter.PrintPreallocated`).
- The gateway's task queue is meant to be first in, first out; it is so only up to
  `LinkedQueues.FirstInFirstOutCondition`, and beyond it writes into tasks that have been freed
  (`LinkedQueues.FirstEarlyPush`).
- The settings file is meant to be replaced by exactly the new text; a longer temporary file left by
  an earlier run, a failed write of an added line, or an assignment longer than the tool's line
  buffer, past which it then writes on, spoils it (`ConfigCrash.StaleTextCondition`,
  `ConfigCrash.NewTextCondition`, `ConfigCrash.AddedLineLost`).
- Of a settings file longer than the read buffer the rest is dropped by a write
  (`ConfigFile.RestLost`).
- A `\u` escape with a wrong digit is not JSON; the parser does not refuse it but ends the string
  there (`JsonStrings.WrongDigitCuts`).
- The shared buffer's monitor reports a full buffer as empty (`SharedBuffer.UsageCondition`).
- A full outgoing ring drops a partly sent frame, after which the client may get nothing of the next
  (`ControlSender.QueueAlignment`, `ControlSender.OverflowLosesFrame`); so may the shutdown notice be
  lost inside a partly sent frame (`ControlSender.NoticeAlignment`, `ControlSender.NoticeLost`).
- The client counts a message whose send failed as sent (`ControlConnection.SendThread`).
- Appending an item whose `next` is set, or that is in the list already, corrupts the list
  (`ItemList.Add`, `ItemList.AddTwice`, `ItemList.AddWhileElsewhere`).
- A frame of unknown priority crashes the control-plane server (`ControlPlaneSafety.CrashRun`).
- The rate limiter loses the time between its two clock readings (`TokenBucket.SlowCallRefuses`).

## Model

| member | source | states |
|---|---|---|
| `ControlPlaneSafety.Keeps` | unix-domain-socket-control-plane/gatewayd/server.h:434-486 | every step of the I/O thread and of any worker keeps the invariant: `pending_task` of each slot equals its tasks held by the I/O thread, queued or being processed, all of the slot's present connection |
| `ControlPlaneSafety.EveryState` | unix-domain-socket-control-plane/gatewayd/server.c:186-432 | the invariant holds in every state of every interleaving of the I/O thread with any number of workers |
| `ControlPlaneSafety.ClosedOnlyWhenIdle` | unix-domain-socket-control-plane/gatewayd/server.h:763-813 | a descriptor is closed by the reaper, or handed out again by accept, only when none of its tasks is left anywhere |
| `ControlPlaneSafety.NoTaskIsStale` | unix-domain-socket-control-plane/gatewayd/server.h:936-956 | the validity test of `process_task` succeeds for every task in every run |
| `ControlPlaneSafety.RepliesReachTheirSender` | unix-domain-socket-control-plane/gatewayd/server.h:643-761 | every reply sent in a run goes to the connection whose frame it answers, although descriptors are reused, and carries that frame's packet number |
| `ControlPlaneSafety.AccountedExactlyOnce` | unix-domain-socket-control-plane/gatewayd/server.h:817-1029 | every accepted frame is in exactly one place: outstanding, answered, refused as busy or passed over; a command that asks for a reply is never passed over, the others are never answered |
| `ControlPlaneReplies.AtMostOneReply` | unix-domain-socket-control-plane/gatewayd/server.h:241-332 | in every run at most one reply to an accepted frame is sent, and to a frame whose command asks for none only a refusal |
| `ControlPlaneReplies.EveryReplyBacked` | unix-domain-socket-control-plane/gatewayd/server.h:733-761 | the replies to a frame that are queued or sent never outnumber the times it was answered or refused, whatever full rings and broken connections drop |
| `ControlPlaneSafety.CrashNeedsUnknownPriority` | unix-domain-socket-control-plane/gatewayd/server.h:687-718 | in every run a crashed server holds an accepted frame of unknown priority; one whose accepted frames all have a known priority never crashes |
| `ControlPlaneSafety.UnknownPriorityCrashes` | unix-domain-socket-control-plane/gatewayd/server.h:334-340 | in every run, queueing an accepted frame of unknown priority before shutdown crashes the server, after which no step is possible |
| `ControlPlaneSafety.CrashRun` | unix-domain-socket-control-plane/gatewayd/server.h:687-718 | a run of four steps that ends in the crash: connect, read one frame of priority 7, queue it |
| `ControlPlaneSafety.CrashCondition` | unix-domain-socket-control-plane/gatewayd/server.h:334-350 | a step dereferences the null queue exactly for an unknown priority before shutdown, among all seventeen kinds of step |
| `ControlPlaneSafety.CheckPasses` | unix-domain-socket-control-plane/gatewayd/server.h:919-956 | in a state of the invariant a dequeued task's slot has its descriptor, generation and connection |
| `ControlPlaneSafety.NoneOutstanding` | unix-domain-socket-control-plane/gatewayd/server.h:434-462 | a descriptor that is not open has no outstanding task |
| `ControlPlaneSafety.NotReaping` | unix-domain-socket-control-plane/gatewayd/server.h:763-810 | while a slot is being reaped no worker holds a task of it |
| `ControlPlaneSafety.KeepsAccept` | unix-domain-socket-control-plane/gatewayd/server.h:434-486 | accepting into a slot, with or without a successful registration, keeps the invariant |
| `ControlPlaneSafety.KeepsComplete` | unix-domain-socket-control-plane/gatewayd/server.h:607-627 | counting a valid frame in `pending_task` keeps the invariant |
| `ControlPlaneSafety.KeepsEnqueue` | unix-domain-socket-control-plane/gatewayd/server.h:685-721 | queueing a task, or failing to, keeps the invariant of the counts; which level it goes to is `ControlPlaneLevels.QueuedOrRefused` |
| `ControlPlaneSafety.KeepsUndo` | unix-domain-socket-control-plane/gatewayd/server.h:721-728 | undoing the count after a refused enqueue keeps the invariant |
| `ControlPlaneSafety.KeepsHandle` | unix-domain-socket-control-plane/gatewayd/server.h:958-1012 | answering a task, marking its slot for closing, or passing it over keeps the invariant |
| `ControlPlaneSafety.KeepsFinish` | unix-domain-socket-control-plane/gatewayd/server.h:919-934 | `finish_task` takes exactly the finished task off its slot's count |
| `ControlPlaneSafety.KeepsReap` | unix-domain-socket-control-plane/gatewayd/server.h:780-808 | closing and resetting a reaped slot keeps the invariant |
| `ControlPlaneSafety.PickedIsChosen` | unix-domain-socket-control-plane/gatewayd/server.c:341-432 | the task a worker dequeues is the oldest of the highest non-empty level it looks at |
| `ControlPlaneLevels.KeepsOrdered` | unix-domain-socket-control-plane/gatewayd/server.h:692-718 | every step keeps each of the three levels to tasks of its own priority, in the order in which their frames were accepted |
| `ControlPlaneLevels.LevelsByPriority` | unix-domain-socket-control-plane/gatewayd/server.h:699-716 | hence so it is in every state of every run |
| `ControlPlaneLevels.QueuedOrRefused` | unix-domain-socket-control-plane/gatewayd/server.h:334-350 | in every run a frame is refused exactly when the server is shutting down or its level is full; otherwise its task waits behind all that is as urgent or more so and before all that is less, everything else staying, unless its priority is unknown |
| `ControlPlaneLevels.MostUrgentOldestFirst` | unix-domain-socket-control-plane/gatewayd/server.c:341-432 | in every run a worker takes the most urgent task its role may take, the oldest of those, never one above its role, and takes out that one alone |
| `ControlPlaneLevels.NothingMovesAfterShutdown` | unix-domain-socket-control-plane/gatewayd/server.c:349-418 | after the shutdown flag is set no task is queued or taken in the rest of the run |
| `ControlPlaneOutcomes.HandleOutcome` | unix-domain-socket-control-plane/gatewayd/server.h:958-1012 | in every run the six requests and an identification are answered on the connection their frame came from, with its packet number; SHUTDOWN_PEER only marks its connection; ACK, NACK and any other command change nothing; no other slot is touched |
| `ControlPlaneOutcomes.DamagedFrameNacked` | unix-domain-socket-control-plane/gatewayd/server.h:684-689 | in every run, whatever the workers do meanwhile, a frame with a bad checksum is answered on its own connection with its own packet number, and is not accepted |
| `ControlPlaneOutcomes.MarkedIsNotRead` | unix-domain-socket-control-plane/gatewayd/server.h:497-627 | in every run a connection once marked stays marked while it is open, and no frame of it is accepted any more but for one being read just then |
| `ControlPlaneOrder.RepliesInOrder` | unix-domain-socket-control-plane/gatewayd/server.h:241-267 | in every run what a connection was sent, followed by what is queued for it, is a subsequence of the replies issued to it |
| `ControlPlaneOrder.RepliesConserved` | unix-domain-socket-control-plane/gatewayd/server.h:733-760 | in every run the replies issued to a connection are those sent, those queued and those lost by an overflow of its ring or a broken send; closing leaves none behind |
| `ControlPlaneSlots.AcceptOutcome` | unix-domain-socket-control-plane/gatewayd/server.h:451-458 | in every run a connection gets the next id, the slot's next generation, and a slot with nothing counted, queued or outstanding |
| `ControlPlaneSlots.NeverTheSame` | unix-domain-socket-control-plane/gatewayd/server.h:451-458 | over a whole run no two connections share an id, nor two on one descriptor a generation |
| `ControlPlaneSlots.MarkedExactly` | unix-domain-socket-control-plane/gatewayd/server.h:497-760 | a slot becomes marked for closing exactly when its stream ends, fails or announces an invalid length, it hangs up, a send breaks or its SHUTDOWN_PEER is handled |
| `ControlPlaneSlots.ReapedSlotIsFree` | unix-domain-socket-control-plane/gatewayd/server.h:763-813 | the reaper closes only a marked connection with no task and no reply left; the slot is then free, keeps its id and generation, and is not closed again; all other slots stay |
| `Rings.Ring.TryEnqueue` | unix-domain-socket-control-plane/gatewayd/server.h:334-350 | appends, and refuses exactly when full |
| `Rings.Ring.TryDequeue` | unix-domain-socket-control-plane/gatewayd/server.h:352-359 | returns the oldest entry and leaves the rest, across the wrap-around |
| `Rings.Ring.Queue` | unix-domain-socket-control-plane/gatewayd/server.h:241-261 | appends, losing the oldest entry exactly when full |
| `Rings.Ring.Advance` | unix-domain-socket-control-plane/gatewayd/server.h:263-267 | drops the oldest entry and moves nothing |
| `Rings.Ring.Append` | unix-domain-socket-control-plane/gatewaycli/client.h:48-79 | stores at the head index; the contents grow by one at the end |
| `Rings.HoldsNewest` | unix-domain-socket-control-plane/gatewayd/server.h:241-267 | after any run of operations the outgoing ring holds the newest entries put in, in order |
| `Rings.HoldsAsManyAsFit` | unix-domain-socket-control-plane/gatewayd/server.h:241-261 | without a send, as many of the newest as fit are held |
| `Rings.ServesInOrder` | unix-domain-socket-control-plane/gatewayd/server.h:334-359 | over every run a task ring is first in, first out, with nothing lost or repeated, and within its capacity |
| `Rings.Scheduler.Pick` | unix-domain-socket-control-plane/gatewayd/server.c:341-432 | a worker takes the oldest task of the highest non-empty level it looks at, and nothing exactly when all of those are empty |
| `Checksum.Calculate` | unix-domain-socket-control-plane/common/common.h:50-65 | the three loops compute the complement of the folded byte sum; the 32-bit sum does not wrap |
| `Checksum.FoldStep` | unix-domain-socket-control-plane/common/common.h:61-63 | one turn of the folding loop makes the sum smaller, keeps it from zero and keeps its residue modulo 65535 |
| `Checksum.FoldedResidue` | unix-domain-socket-control-plane/common/common.h:61-64 | the folded sum is congruent to the sum modulo 65535, and zero only for a zero sum |
| `Checksum.SameChecksum` | unix-domain-socket-control-plane/common/common.h:50-65 | two frames have the same checksum exactly when their byte sums agree modulo 65535 and are both zero or both not |
| `Checksum.ByteChangeDetected` | unix-domain-socket-control-plane/common/common.h:58-64 | changing any one payload byte changes the checksum |
| `Checksum.PermutationUndetected` | unix-domain-socket-control-plane/common/common.h:58-64 | permuting the payload bytes does not |
| `ControlFraming.Build` | unix-domain-socket-control-plane/common/common.h:67-90 | the text is the payload's C string, cut to 2047 bytes |
| `ControlConnection.BuildMessage` | unix-domain-socket-control-plane/common/common.h:67-90 | clearing and filling the structure gives the header, the text with zeros after it, and the checksum of the frame on the wire |
| `ControlConnection.SendFramed` | unix-domain-socket-control-plane/common/common.h:102-131 | the blocking send loop returns 0 exactly when the whole frame was taken, and hands over nothing but a prefix of it otherwise |
| `ControlConnection.SendThread` | unix-domain-socket-control-plane/gatewaycli/client.c:300-337 | what the client's sending thread hands over is the frames of all its messages exactly when every call returned 0; it stops when the connection is closed, and counts a message whose send failed as sent |
| `ControlFraming.HeaderFields` | unix-domain-socket-control-plane/common/common.h:37-42 | the header's bytes give back command, priority, packet number and length |
| `ControlFraming.AbsorbRefines` | unix-domain-socket-control-plane/gatewayd/server.h:514-627 | one recv in any of the three stages keeps the reader's invariant and peels its frame off the reference decoding |
| `ControlFraming.ReadStageRefines` | unix-domain-socket-control-plane/gatewayd/server.h:497-633 | one call of `read_stage` returns the next frame of the reference decoding and leaves the rest of the bytes to decode |
| `ControlFraming.SplittingIrrelevant` | unix-domain-socket-control-plane/gatewayd/server.h:497-633 | for every byte stream and every splitting, interruption and early return, the frames counted are those of the concatenated bytes, in order |
| `ControlFraming.WireExtracts` | unix-domain-socket-control-plane/common/common.h:67-90 | the frame of a built message is decoded to its header and payload, intact, whatever follows it |
| `ControlFraming.PrefixWaits` | unix-domain-socket-control-plane/gatewayd/server.h:514-612 | a proper prefix of a frame yields no frame |
| `ControlFraming.SentFramesArrive` | unix-domain-socket-control-plane/gatewayd/server.h:497-633 | from the client to the server: of frames sent whole and a part of one more, however split, the server's reader gets exactly those sent whole, intact and in order |
| `ClientFraming.ClientStageRefines` | unix-domain-socket-control-plane/gatewaycli/client.h:179-301 | one call of the client's `read_stage`, with its extra round on an invalid length, returns the next frame of the same reference decoding |
| `ClientFraming.ClientSplittingIrrelevant` | unix-domain-socket-control-plane/gatewaycli/client.h:179-301 | the client's reader, too, gets the frames of the concatenated bytes, in order, for every splitting, interruption and early return |
| `ControlSender.QueueAlignment` | unix-domain-socket-control-plane/gatewayd/server.h:241-261 | queueing keeps the frames on the wire aligned exactly when it does not push out a partly sent frame from a full ring |
| `ControlSender.QueueLosses` | unix-domain-socket-control-plane/gatewayd/server.h:249-253 | no message is lost by queueing exactly when the ring has room |
| `ControlSender.WritableAligned` | unix-domain-socket-control-plane/gatewayd/server.h:290-332 | a call without a send error, however far it gets, leaves whole frames and the begun part of the next on the wire |
| `ControlSender.WritableUnlost` | unix-domain-socket-control-plane/gatewayd/server.h:733-760 | such a call loses no message |
| `ControlSender.FailureAlignment` | unix-domain-socket-control-plane/gatewayd/server.h:744-748 | a failed send keeps the wire aligned exactly when no byte of its frame had gone out before the call and no send of the call takes one before the failure |
| `ControlSender.AlignedRun` | unix-domain-socket-control-plane/gatewayd/server.h:241-332 | over every run from the start, the wire is aligned in all states exactly when no step pushes a partly sent frame out of a full ring and none fails after a part of a frame went out |
| `ControlSender.RoundTrip` | unix-domain-socket-control-plane/gatewayd/server.h:290-332 | from the ring to the client: under any partial sends, drops and failures that keep the wire aligned, and any partial receives, the client gets exactly the messages sent whole, intact and in the order queued; without drops and failures these are the first of those queued, and all once the ring is empty |
| `ControlSender.OverflowBreaksAlignment` | unix-domain-socket-control-plane/gatewayd/server.h:249-253 | a run of sixteen queued messages and one byte sent, without overflow or failure, after which one more queued message breaks the alignment |
| `ControlSender.ShiftedFrame` | unix-domain-socket-control-plane/gatewaycli/client.h:179-301 | one stray byte before any frame with a text: no frame is extracted |
| `ControlSender.OverflowLosesFrame` | unix-domain-socket-control-plane/gatewayd/server.h:249-253 | after that run the next message is sent whole, and of any message with a text nothing is extracted |
| `ControlSender.BesideAlignment` | unix-domain-socket-control-plane/gatewayd/server.c:150-158 | a frame sent past the ring whose bytes end in the only two 255s it has keeps the wire aligned exactly when no part of the frame in front has been sent |
| `ControlSender.NoticeAlignment` | unix-domain-socket-control-plane/gatewayd/server.c:150-158 | so does the shutdown notice: its header, text and computed checksum are such a frame |
| `ControlSender.NoticeLost` | unix-domain-socket-control-plane/gatewayd/server.c:150-158 | with one byte of any message sent, nothing is extracted of the notice |
| `ControlSender.NoticeOnWire` | unix-domain-socket-control-plane/gatewayd/server.c:150-158 | the notice's frame, byte for byte: command 6, priority 2, number 0, the length, the text, its checksum and the end marker |
| `ControlConnection.Receiver.ReadStage` | unix-domain-socket-control-plane/gatewayd/server.h:497-633 | the loop over stage, byte count and buffers returns what the reader's specification returns, and counts a frame in `pending_task` exactly when it is intact |
| `ControlConnection.Receiver.Turn` | unix-domain-socket-control-plane/gatewayd/server.h:500-627 | one turn of that loop: a recv and what follows it |
| `ControlConnection.Receiver.Absorb` | unix-domain-socket-control-plane/gatewayd/server.h:534-633 | the bytes just received take the connection to the next stage, to a frame, or to closing |
| `ControlConnection.Outbox.Queue` | unix-domain-socket-control-plane/gatewayd/server.h:241-261 | the ring's new contents are those of the sender's specification |
| `ControlConnection.Outbox.PushBytes` | unix-domain-socket-control-plane/gatewayd/server.h:309-328 | the send loop hands exactly the bytes up to the returned offset to the kernel, in order |
| `ControlConnection.Outbox.HandleWritable` | unix-domain-socket-control-plane/gatewayd/server.h:733-760 | sends from the entry in front, keeps its offset when blocked, drops it when sent or broken, as the sender's specification says |
| `Sessions.Table.LookupOrCreate` | unix-domain-socket-control-plane/gatewayd/server.h:196-237 | after any run, slot k holds the k-th distinct token, id k+1 and the number of its identifications; RESUMED exactly for a token that has a slot; refused exactly for a new token with all 256 slots used |
| `Sessions.Table.Identify` | unix-domain-socket-control-plane/gatewayd/server.h:877-917 | the token is the C string of at most 63 bytes; the reply has the id of its slot and the number of its identifications, those included that other workers make before id and count are read |
| `Sessions.SlotForever` | unix-domain-socket-control-plane/gatewayd/server.h:196-237 | a token's slot and id never change |
| `Sessions.RefusedForever` | unix-domain-socket-control-plane/gatewayd/server.h:218-221 | a token refused by a full table stays refused |
| `Sessions.FirstsDistinct` | unix-domain-socket-control-plane/gatewayd/server.h:196-237 | the tokens in use are distinct, and so are their ids |
| `Sessions.KnownWhileRoom` | unix-domain-socket-control-plane/gatewayd/server.h:209-215 | up to 256 different tokens, a token is known exactly when it was presented before |
| `Crc.Table.Calculate` | gateway/src/crc.c:27-41 | the table-driven loop computes the bit-at-a-time CRC-32 of section 8 of RFC 1952 on every input; what number that is says `CrcPolynomial.CrcIsRemainder` |
| `Crc.Table.Build` | gateway/src/crc.c:9-25 | the table is filled and valid |
| `Crc.Entry` | gateway/src/crc.c:12-20 | the inner loop computes the table entry of its byte: eight shifts of it, each by the generator of `CrcPolynomial.TapsAreGenerator` |
| `Crc.TableStep` | gateway/src/crc.c:33-36 | shifting in eight bits equals one table step |
| `Crc.TableEntryIsRounds` | gateway/src/crc.c:9-25 | a table entry is eight shifts of its index |
| `Crc.ShiftInjective` | gateway/src/crc.c:15-21 | the bit step is injective |
| `Crc.BurstDetected` | gateway/src/crc.c:27-41 | any change confined to four consecutive bytes changes the CRC |
| `Crc.BurstDetectedOnWire` | gateway/src/crc.c:27-41 | and changes the 32-bit number that is sent |
| `CrcPolynomial.CrcIsRemainder` | gateway/src/crc.c:27-41 | for every message, its CRC is the one 32-bit number that, complemented and with its bits reversed, is the remainder of the message polynomial divided by x^32+x^26+x^23+x^22+x^16+x^12+x^11+x^10+x^8+x^7+x^5+x^4+x^2+x+1 |
| `CrcPolynomial.RemainderUnique` | gateway/src/crc.c:27-41 | no polynomial has two remainders |
| `CrcPolynomial.TapsAreGenerator` | gateway/src/crc.c:15 | the constant 0xEDB88320, bit by bit, is that generator reversed |
| `CrcPolynomial.RegisterIsRemainder` | gateway/src/crc.c:33-37 | after any message bits the register is what is left after a multiple of the generator is taken away |
| `CrcCheck.CheckValue` | gateway/src/crc.c:27-41 | the CRC of the digits 1 to 9 is 0xCBF43926, the check value of CRC-32 |
| `Frames.PacketEncode` | gateway/src/protocol_message.c:77-105 | the buffer starts with header, payload and CRC; refused, and unchanged, exactly when it is too small or the payload too long |
| `Frames.BuildErrorPacket` | gateway/src/protocol_message.c:108-131 | a whole frame of type MSG_ERROR whose payload is the error code |
| `Frames.ReceiveRefines` | gateway/src/server.c:709-863 | one recv keeps `rx_len` inside the buffer and below its target and peels its task or error reply off the reference decoding |
| `Frames.ReadMessageRefines` | gateway/src/server.c:698-875 | one call of `client_read_message` returns the next event of the reference decoding |
| `Frames.SegmentationIndependent` | gateway/src/server.c:698-875 | for every byte stream and every way of splitting it, tasks and error replies are one function of the concatenated bytes, the one pinned by `FrameDecodes`, `DamagedRefused` and `HeaderRefused` |
| `Frames.SameBytesSameEvents` | gateway/src/server.c:698-875 | two splittings of the same bytes give the same events |
| `Frames.PacketDecodes` | gateway/src/protocol_message.c:77-105 | an encoded frame decodes to its task, whatever follows it |
| `Frames.FrameDecodes` | gateway/src/server.c:819-858 | a complete frame in front of any bytes becomes a task exactly when it carries the CRC of its payload, and is answered with a CRC mismatch for its request otherwise; in either case the bytes after it are decoded as they stand |
| `Frames.DamagedRefused` | gateway/src/server.c:819-838 | a packet changed anywhere within four consecutive bytes of its payload is answered with error 5 for its request, and decoding goes on behind it |
| `Frames.HeaderRefused` | gateway/src/server.c:665-694 | a header with a wrong magic, version, length or type is answered for its request with error 2, 3, 4 or 1, the first that applies in that order, and decoding goes on behind it |
| `FrameWire.EchoOnWire` | gateway/src/protocol_message.c:77-105 | an echo request as sent, byte for byte |
| `FrameWire.MismatchOnWire` | gateway/src/protocol_message.c:108-131 | the answer to a damaged request as sent, byte for byte |
| `FrameReader.Client.ReadMessage` | gateway/src/server.c:698-875 | the loop over `stage`, `rx_len` and the receive buffer returns what the decoder's specification returns |
| `FrameReader.Client.Absorb` | gateway/src/server.c:738-863 | the bytes just received take the client to the next stage or event |
| `Bytes.BeRoundTrip` | gateway/src/protocol_message.c:11-75 | decoding a big-endian number undoes encoding it |
| `Bytes.BeInverse` | gateway/src/protocol_message.c:53-75 | and encoding undoes decoding |
| `JsonRoundTrip.ParseUndoesPrint` | gateway/src/cJSON.c:1147-1305 | parsing the text of a tree that prints, formatted or not and up to the nesting limit, gives the same tree, with members in order |
| `JsonRoundTrip.ParseUndoesPrintBefore` | gateway/src/cJSON.c:1147-1230 | and so does parsing a longer text that starts with it, if what follows cannot continue a number |
| `JsonRoundTrip.PrintInjective` | gateway/src/cJSON.c:1239-1305 | different trees never print the same text |
| `JsonRoundTrip.ValueRoundTrip` | gateway/src/cJSON.c:1368-1494 | a printed value, anywhere in a text and at any depth, is parsed back and ends where it ended |
| `JsonRoundTrip.ArrayRoundTrip` | gateway/src/cJSON.c:1497-1659 | the same for arrays |
| `JsonRoundTrip.ObjectRoundTrip` | gateway/src/cJSON.c:1662-1896 | the same for objects |
| `JsonRoundTrip.StringRoundTrip` | gateway/src/cJSON.c:824-1073 | unescaping undoes escaping for every NUL-free string |
| `JsonRoundTrip.NumberRoundTrip` | gateway/src/cJSON.c:307-408 | a printed integer is read back and ends where its digits end |
| `JsonReprint.ParsedShape` | gateway/src/cJSON.c:1147-1777 | every tree that parsing returns, on any bytes, has NUL-free texts and nesting within the limit, and is in the modelled printer's domain exactly when its numbers are integers of int range |
| `JsonReprint.ReprintStable` | gateway/src/cJSON.c:1147-1365 | what was parsed from any text, its numbers being integers of int range, can be printed, in either format, and parses to the same tree again |
| `JsonDocuments.EveryDocumentParsed` | gateway/src/cJSON.c:1147-1230 | every document in the grammar of section 2 of RFC 8259 up to the nesting limit, whatever its blanks, escapes and spellings of numbers, with or without a byte order mark and with any bytes after it that do not prolong a number, parses to its meaning |
| `JsonDocuments.DocParsed` | gateway/src/cJSON.c:1368-1777 | the same for a document anywhere in a text, at any depth: it is read to its end |
| `JsonNumbers.NumberParsed` | gateway/src/cJSON.c:307-408 | a number anywhere in a text, whatever its sign, fraction and exponent, is read to its end as its digits times ten to the exponent less the length of the fraction |
| `JsonNumbers.StrtodSpelled` | gateway/src/cJSON.c:370-376 | the conversion takes all of such a spelling, for what it is worth |
| `JsonNumbers.StrtodTakesNumber` | gateway/src/cJSON.c:370-376 | of any text it takes nothing but a spelling, for what that is worth |
| `JsonNumbers.StrtodTakesLongest` | gateway/src/cJSON.c:370-376 | and no longer spelling begins the text |
| `JsonNumbers.ValueIntCuts` | gateway/src/cJSON.c:379-390 | `valueint` is the number cut off towards zero, or the end of the range of int beyond it |
| `JsonNumbers.FractionCutOff` | gateway/src/cJSON.c:379-390 | without an exponent it is the number before the point |
| `JsonStrings.StringMeans` | gateway/src/cJSON.c:824-935 | a string spelled with any mixture of plain bytes, short escapes and \u escapes, surrogate pairs included, is read as the UTF-8 of its meaning, up to the first NUL |
| `JsonStrings.WrongDigitCuts` | gateway/src/cJSON.c:666-701 | a \u escape with a digit that is none is not refused: the string ends before it |
| `JsonParser.ParseWithLength` | gateway/src/cJSON.c:1147-1235 | the parser over mutable offset and depth returns the specification's result on every byte sequence, which for every document is its meaning (`JsonDocuments.EveryDocumentParsed`) |
| `JsonParser.ParseBuffer.ParseValue` | gateway/src/cJSON.c:1368-1420 | and so does each of its functions: values |
| `JsonParser.ParseBuffer.ParseArray` | gateway/src/cJSON.c:1497-1593 | arrays |
| `JsonParser.ParseBuffer.ParseObject` | gateway/src/cJSON.c:1662-1777 | objects |
| `JsonParser.ParseBuffer.ParseString` | gateway/src/cJSON.c:824-951 | strings |
| `JsonParser.ParseBuffer.ParseNumber` | gateway/src/cJSON.c:307-408 | numbers, over the reals; what a number is worth is `JsonNumbers.NumberParsed` |
| `JsonParser.ParseBuffer.SkipWhitespace` | gateway/src/cJSON.c:1090-1113 | skips to the first byte above 32, or the last byte |
| `JsonParser.ParseBuffer.FindQuote` | gateway/src/cJSON.c:837-862 | finds the closing quote and counts the escape pairs before it |
| `JsonParser.ParseBuffer.DecodeInto` | gateway/src/cJSON.c:873-935 | the decoded bytes fit the buffer allocated from the first pass's count, and are the unescaped string |
| `JsonParser.ParseBuffer.Utf16LiteralToUtf8` | gateway/src/cJSON.c:703-821 | a literal becomes exactly the UTF-8 of its code point, surrogate pairs included, or is rejected |
| `JsonParser.ParseHex4` | gateway/src/cJSON.c:666-701 | four hexadecimal digits, zero if one is not |
| `JsonParser.StoreUtf8` | gateway/src/cJSON.c:772-812 | the bytes written back to front are the UTF-8 of section 3 of RFC 3629 |
| `Utf.LiteralDecodes` | gateway/src/cJSON.c:703-770 | every code point's escape, one unit or a surrogate pair, decodes to it |
| `Utf.LoneUnit` | gateway/src/cJSON.c:720-765 | a single unit is rejected exactly when it is a surrogate |
| `Utf.Utf8Recovered` | gateway/src/cJSON.c:772-812 | the code point and the length can be read back from its UTF-8 |
| `JsonPrinter.Print` | gateway/src/cJSON.c:1239-1305 | printing succeeds exactly within the nesting limit and the size limit, and gives the text |
| `JsonPrinter.PrintPreallocated` | gateway/src/cJSON.c:1348-1365 | printing into a given buffer succeeds exactly when the text and two bytes more fit, and leaves the text in it |
| `JsonPrinter.PrintBuffer.PrintValue` | gateway/src/cJSON.c:1423-1494 | appends the value's text, and succeeds exactly within the nesting limit and the room left |
| `JsonPrinter.PrintBuffer.PrintString` | gateway/src/cJSON.c:954-1073 | appends the quoted, escaped string |
| `JsonPrinter.PrintBuffer.PrintArray` | gateway/src/cJSON.c:1595-1659 | appends the array's text |
| `JsonPrinter.PrintBuffer.PrintObject` | gateway/src/cJSON.c:1780-1896 | appends the object's text |
| `JsonPrinter.PrintBuffer.Ensure` | gateway/src/cJSON.c:490-573 | makes room without changing what is printed, and fails exactly beyond the room there can be |
| `JsonPrinter.PrintBuffer.UpdateOffset` | gateway/src/cJSON.c:576-586 | moves to the end of what was printed |
| `JsonPrinter.CountEscapes` | gateway/src/cJSON.c:981-1008 | the precomputed escaped length is the number of bytes written |
| `JsonPrinter.WriteEscaped` | gateway/src/cJSON.c:1025-1070 | writes exactly the escaped bytes |
| `JsonLayout.Words` | gateway/src/cJSON.c:1438-1466 | null, true and false are printed as those words |
| `JsonLayout.ArrayLayout` | gateway/src/cJSON.c:1595-1659 | elements are separated by a comma, and a blank too in the indented form |
| `JsonLayout.ObjectLayout` | gateway/src/cJSON.c:1780-1896 | in the indented form every member has its line, a tab for each level and one after its colon, and the closing brace one tab less |
| `JsonLayout.ControlByte` | gateway/src/cJSON.c:1062-1066 | a control byte without a short escape is printed in lower-case hexadecimal |
| `Requests.EndToEnd` | gateway/client/client.c:188-266 | for every sequence of set-actuator and get-sensor requests with any ids and values, built, printed, framed and delivered under any segmentation, the gateway decodes and understands exactly those requests, in order |
| `Requests.Understood` | gateway/src/payload_json.c:64-115 | a printed request is understood as it was meant |
| `Requests.TreePrints` | gateway/client/client.c:244-266 | every request prints, within one frame's payload |
| `Requests.ParseSetActuator` | gateway/src/payload_json.c:87-115 | succeeds exactly for an object with three number fields, and returns them |
| `Requests.GetObjectItem` | gateway/src/cJSON.c:1951-1991 | finds the first member of that name |
| `RequestTexts.SensorPayload` | gateway/client/client.c:244-253 | the payload of a sensor request, byte for byte, and its type |
| `RequestTexts.ActuatorPayload` | gateway/client/client.c:255-266 | the payload of an actuator command, byte for byte, and its type |
| `RequestTexts.ActuatorUnderstood` | gateway/src/payload_json.c:87-115 | any payload whatever is taken for an actuator command exactly when the type says so, it parses to an object and the first members of the three names are numbers, whose cut-off values it then carries |
| `RequestTexts.SensorUnderstood` | gateway/src/payload_json.c:64-85 | and for a sensor request likewise |
| `ItemList.Add` | gateway/src/cJSON.c:2027-2058 | appends; the list is well-formed afterwards exactly when the item was not in it already and it was empty or the item's `next` was null |
| `ItemList.AddTwice` | gateway/src/cJSON.c:2027-2058 | an item added twice follows itself |
| `ItemList.AddWhileElsewhere` | gateway/src/cJSON.c:2027-2058 | an item added to a second array while it is in the first: a walk of the second meets three items though two were added |
| `ItemList.Insert` | gateway/src/cJSON.c:2334-2366 | inserts at any position, keeping the links mutually inverse and the head's `prev` the tail, exactly when the item is neither in the list already nor the array; at the end as `Add` |
| `ItemList.Detach` | gateway/src/cJSON.c:2258-2292 | removes from any position, likewise, and clears the item's links; an item in no list is refused and nothing changes |
| `ItemList.Replace` | gateway/src/cJSON.c:2368-2415 | replaces at any position, likewise, exactly when the replacement is the item itself or is neither in the list already nor the array; for an item in no list, the list stays well-formed exactly when the replacement is that item or is all of the list |
| `ItemList.GetItem` | gateway/src/cJSON.c:1922-1939 | the item at the index, or null past the end |
| `ItemList.ArraySize` | gateway/src/cJSON.c:1899-1920 | the number of items |
| `ItemList.WalksAgree` | gateway/src/cJSON.c:1999-2058 | following `next` and `prev` meets the same items, and the tail is found from the head |
| `LinkedQueues.ResponseQueue.Push` | gateway/src/queue.c:190-218 | appends, and refuses exactly at the limit |
| `LinkedQueues.ResponseQueue.Pop` | gateway/src/queue.c:226-252 | returns the oldest response, unlinked |
| `LinkedQueues.TaskQueue.Push` | gateway/src/queue.c:32-66 | hangs the task on `tail`, which stays where it is, and says whether that is a task no longer in the queue |
| `LinkedQueues.SpacedNeverStale` | gateway/src/queue.c:52-57 | in a run whose pushes are spaced no push writes into a task that has been taken out, which its worker frees |
| `LinkedQueues.FirstEarlyPush` | gateway/src/queue.c:52-57 | the first push that comes too early writes into such a task exactly when one was taken out since the queue was last empty; otherwise it loses the second task |
| `LinkedQueues.TaskQueue.Pop` | gateway/src/queue.c:69-102 | takes the first task that can be reached, and dereferences null exactly when none can |
| `LinkedQueues.FirstInFirstOutCondition` | gateway/src/queue.c:32-102 | over every run the task queue is first in, first out and has not crashed exactly when no push comes with two pushes since it was last empty |
| `LinkedQueues.ThreePushesLose` | gateway/src/queue.c:52-57 | three pushes lose the second task, and the third pop crashes |
| `Routing.AnswersMatchRequests` | gateway/src/server.c:385-442 | in every run every response put on a connection carries the id of a request that connection sent; each request is answered at most once, and is in transit, answered or lost; why it can be lost is `RoutingDelivery.LostOnlyForCause` |
| `Routing.OneConnectionPerGeneration` | gateway/src/client.c:56-98 | (slot, generation) names one connection over a whole run |
| `Routing.OwnerForever` | gateway/src/client.c:78-82 | and the record of it never changes |
| `Routing.DeliverAnswers` | gateway/src/client.c:274-286 | the test of generation and `alive` lets a response through only to the connection that sent its request; that it does let it through is `RoutingDelivery.DeliverExactly` |
| `Routing.FoundAgain` | gateway/src/client.c:100-114 | the slot found from a received frame's descriptor is the slot it arrived on |
| `Routing.ReceiveTraced` | gateway/src/client.c:351-378 | the task built carries the connection's slot, generation and request id |
| `Routing.WorkerStepTraced` | gateway/src/worker_thread.c:47-259 | a worker's response keeps its task's slot, generation and request id, error and timeout responses included |
| `Routing.Table.Alloc` | gateway/src/client.c:56-98 | takes the first free slot under the next generation |
| `Routing.Table.FdToSlot` | gateway/src/client.c:100-114 | the first alive slot with the descriptor |
| `Routing.Table.Close` | gateway/src/client.c:314-349 | with distinct descriptors the closed one is found under no slot any more; a slot at or before this one is free; whoever gets this slot again gets a generation above the closed one's |
| `RoutingDelivery.DeliveredUnlessGone` | gateway/src/server.c:405-439 | in every run a response taken up is put on the connection whose request it answers, with that request's id, exactly if that connection still holds a live slot, and is given up otherwise |
| `RoutingDelivery.DeliverExactly` | gateway/src/server.c:396-439 | one turn of the loop: the oldest response leaves the queue and meets that fate |
| `RoutingDelivery.LostOnlyForCause` | gateway/src/server.c:385-442 | in every run a request is lost exactly as often as a step gave it up: its slot dead or the task queue full, lost in the task queue, expired at a worker, the response queue full, or its connection gone |
| `RoutingDelivery.AnsweredUnlessGivenUp` | gateway/src/server.c:385-442 | in every run a request that has left queues and workers is answered exactly if no step gave it up |
| `RoutingDelivery.ResponsesInOrder` | gateway/src/server.c:397-439 | in every run responses are taken up in the order in which workers put them on the queue, none missing or repeated |
| `RoutingDelivery.ReceiveExactly` | gateway/src/server.c:846-854 | a complete frame becomes a task with its slot, generation and id exactly if its slot is live and the task queue has room |
| `RoutingDelivery.ConnectedIsLive` | gateway/src/client.c:56-98 | a new connection gets a live slot exactly if one is free |
| `RoutingDelivery.StaysLive` | gateway/src/client.c:314-349 | and keeps it until that slot is closed or marked dead |
| `SharedBuffer.EveryState` | gateway-core-posix/common/common.c:404-461 | in every interleaving of any number of processes, items, spaces and the processes between semaphore and lock account for the whole capacity, and the ring holds exactly the unread samples |
| `SharedBuffer.FirstInFirstOut` | gateway-core-posix/common/common.c:499-548 | the samples read are a prefix of the samples written, and never more than the capacity are in between |
| `SharedBuffer.FetchFindsOldest` | gateway-core-posix/common/common.c:511-514 | a reader that holds an item finds the oldest unread sample at the read index, never an unwritten slot |
| `SharedBuffer.WriteHitsFreeSlot` | gateway-core-posix/common/common.c:538-541 | a writer that holds a space overwrites no unread sample |
| `SharedBuffer.StoresSettle` | gateway-core-posix/common/common.c:525-548 | each finished store was one write or one count of `dropped`, modulo 2^32; at rest the semaphores measure the buffer |
| `SharedBuffer.UsageCondition` | gateway-core-posix/monitor/monitor.c:96-98 | the monitor's occupancy is right exactly when the buffer is not full; a full one shows as zero |
| `SharedBuffer.FullShowsEmpty` | gateway-core-posix/monitor/monitor.c:96-98 | a run that ends in such a state |
| `SharedBuffer.LatestShown` | gateway-core-posix/monitor/monitor.c:87-91 | the sample shown as the latest is the last one written |
| `TokenBucket.Limiter.RequestAllow` | gateway/src/rate_limit.c:25-51 | refills, caps, takes a token or refuses, as the specification says |
| `TokenBucket.TokensInRange` | gateway/src/rate_limit.c:9-51 | in every run the tokens stay between zero and the capacity |
| `TokenBucket.TokensConserved` | gateway/src/rate_limit.c:25-51 | in every run the tokens left and granted are the capacity and the inflow, less what the cap cut off and what flowed in between the two readings of a call |
| `TokenBucket.AllowedExactly` | gateway/src/rate_limit.c:32-50 | hence a call of a run is allowed exactly when that sum exceeds the grants before it by one |
| `TokenBucket.GrantedBounded` | gateway/src/rate_limit.c:25-51 | between any two calls of any run at most the capacity plus rate times elapsed time is granted |
| `TokenBucket.AllowedWhateverLeft` | gateway/src/rate_limit.c:32-50 | a request is allowed whatever is left in the bucket exactly when the capacity is at least one and one token flows in since the last call's second reading |
| `TokenBucket.SpacedAllowed` | gateway/src/rate_limit.c:32-50 | in every run with a capacity of at least one, the first call is allowed, and so is every call 1/rate or more after its predecessor's second reading |
| `TokenBucket.SpacedNeverRefused` | gateway/src/rate_limit.c:32-50 | hence a call 1/rate or more after a predecessor whose readings coincide is never refused |
| `TokenBucket.SlowCallRefuses` | gateway/src/rate_limit.c:43 | a run in which the readings differ and such a call is refused |
| `ConfigFile.ReadAfterWrite` | safe-config-tool/main.c:222-310 | after a write every parameter reads as a map update says, despite comments, duplicates and blank lines, up to one trailing carriage return |
| `ConfigFile.ReadBackCondition` | safe-config-tool/main.c:263-283 | the written value is read back exactly when the parameter has no '=' or newline and does not start with '#' and the value has no newline and does not end in a carriage return; if only the last fails, it is read back without that return |
| `ConfigFile.BehavesAsMap` | safe-config-tool/main.c:123-166 | under any sequence of such writes by the tool a parameter reads as last written, or as at the start |
| `ConfigFile.OtherLinesKept` | safe-config-tool/main.c:253-310 | a write that fits keeps every line that does not set its parameter, comments and duplicates of others among them, in order, less one carriage return and the empty lines |
| `ConfigFile.RestLost` | safe-config-tool/main.c:222-252 | of a settings file longer than the read buffer a write keeps nothing past the first 255 bytes |
| `ConfigFile.OutputCondition` | safe-config-tool/main.c:269-271 | the tool writes the text it should exactly when the assignment and its newline fit its line buffer, that is, parameter and value together have at most 253 bytes, whatever lies behind that buffer |
| `ConfigFile.OutputText` | safe-config-tool/main.c:257-310 | it always writes as many bytes as it should |
| `ConfigFile.FittingText` | safe-config-tool/main.c:222-310 | a new text that fits the read buffer is written as it should be |
| `ConfigFile.TokensOfJoined` | safe-config-tool/main.c:253-302 | cutting the written text into lines gives the lines back, less the empty ones |
| `ConfigFile.ParseStripped` | safe-config-tool/main.c:147-162 | taking a carriage return off a line leaves its key alone |
| `ConfigTool.ReadParam` | safe-config-tool/main.c:123-184 | cutting the buffer in place finds what the specification finds; an empty file is an error |
| `ConfigTool.WriteParam` | safe-config-tool/main.c:222-310 | the loop puts exactly the specified bytes into the temporary file, for assignments of every length |
| `ConfigTool.NextToken` | safe-config-tool/main.c:143 | `strtok_r` cuts off the next line and leaves the others to come |
| `ConfigTool.Matches` | safe-config-tool/main.c:152-157 | decides whether the line sets the parameter, and where its value starts |
| `ConfigCrash.AllOrNothing` | safe-config-tool/main.c:240-327 | wherever the run stops, the settings file holds the old text, or the rename has been done and it holds all of the temporary file |
| `ConfigCrash.ChangesOnlyByRename` | safe-config-tool/main.c:312-327 | the settings file changes only by a rename after a successful fsync |
| `ConfigCrash.OldOrNew` | safe-config-tool/main.c:186-343 | with complete writes, an assignment that fits and no longer temporary file left over, it holds the old text or the complete new text |
| `ConfigCrash.StaleCondition` | safe-config-tool/main.c:240-242 | with complete writes the renamed file is what was written exactly when no longer temporary file was left over |
| `ConfigCrash.StaleTextCondition` | safe-config-tool/main.c:240-327 | and it is the new text exactly when, besides, the assignment fits the line buffer |
| `ConfigCrash.NewTextCondition` | safe-config-tool/main.c:257-327 | with no temporary file left over it is the new text exactly when every write was made in full and the assignment fits the line buffer; the tool renames in either case |
| `ConfigCrash.AddedLineLost` | safe-config-tool/main.c:303-327 | for any settings without the parameter: when only the write of the added line fails, the tool still renames, and the file does not hold the new text |
| `ConfigCrash.WritesCondition` | safe-config-tool/main.c:269-310 | the same for any chunks of which the ones that may fail silently are not empty |
| `ConfigCrash.ChunksAreOutput` | safe-config-tool/main.c:257-310 | the writes of the tool make up its output |
| `ConfigCrash.ChunksAreText` | safe-config-tool/main.c:257-310 | they make up the new text exactly when the assignment fits the line buffer |
| `ConfigCrash.StaleTailSurvives` | safe-config-tool/main.c:242 | for every settings file and assignment that fits, a left-over file whose end survives in the settings file although everything succeeds |
| `ConfigCrash.LongLineSpoils` | safe-config-tool/main.c:269-271 | the settings a=1 and a value of 300 bytes: everything succeeds and the file does not hold the new text |

## Left out

- Sockets, epoll, select and poll, TLS, signals, process start-up, flock, device files and logging: recv, send, clocks, accept and semaphores are parameters or steps with any outcome.
- Concurrency below the locked sections: the C memory model and the unlocked reads of `pending_close`, `connected` and `fd` outside the places modelled.
- Liveness: no claim that a queued task is ever taken; one `cond_signal` may wake a worker that cannot take it.
- ControlPlane, SharedBuffer and Routing are transition systems on values, since their properties are about interleavings; update in place is modelled in the classes of the other modules.
- Shutdown of the task queue and of the workers; freeing of memory, but for saying when the task queue writes into a freed task.
- Counters that only wrap after 2^31 or 2^64 steps (generations, connection ids, packet numbers, reconnect counts) are unbounded; `dropped` is 32 bits wide.
- Session statistics (packets in and out, times seen).
- ControlFraming.WireExtracts: the header is laid out as on a little-endian 64-bit machine with padding cleared.
- ControlSender.RoundTrip: the signal thread's shutdown notices go to the sockets past the outgoing ring (unix-domain-socket-control-plane/gatewayd/server.c:150-158); the round trip is for runs without them, and `ControlSender.NoticeAlignment` says exactly when one does no harm.
- Bytes of a received message beyond `header.length`: the buffer is not cleared between frames.
- ClientFraming.ClientStageRefines: the client's `read_stage` is modelled on values only, without its update of stage, byte count and buffers in place, which is modelled for the server's.
- Routing: error replies of the frame decoder are not responses of workers and are not counted; a task in transit may be lost at any time, which covers the task queue's losses and time-outs.
- `flush_message_from_queue` and `client_flush_tx_tls`: a partly sent message is not put back correctly, so that no whole-frame claim holds there.
- The rate limiter's discard loop in gateway/src/server.c: it drops bytes in the middle of the stream; the decoder is modelled over the bytes that reach it.
- TokenBucket.GrantedBounded: over the reals; rounding of doubles is not modelled, and capacity and rate are not negative.
- JsonParser.ParseBuffer.ParseNumber: numbers are reals, so that the rounding of `strtod` is not modelled; locales are left out.
- JsonPrinter.PrintBuffer.PrintValue: of the numbers only integers in the range of int are printed; other numbers, NaN and raw items are left out.
- JsonReprint.ReprintStable: for the same reason it is about trees whose numbers are integers in the range of int; the source prints other numbers too.
- ItemList.Detach: an item that is in the list of another array is not covered; the caller names the wrong array.
- ItemList.Replace: likewise.
- The codec's trees are values; `ItemList` models the heap links of their children. Allocation failure, `cJSON_Minify`, `cJSON_Compare` and references are left out.
- Whether the memory behind the settings tool's line buffer can be read at all: its bytes are any bytes.
- `back_up_file` advances offsets that its system call already advances; the settings file's properties do not need it.
- ipc-cmd-pipeline, system-V-ipc-sensorhub, process-supervisor, signal-aware-multithreaded-daemon, the message queues of gateway-core-posix and the hysteresis helpers would add only easier versions of the properties above.
