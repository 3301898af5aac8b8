# Lidar data path, packet codec, ring buffer and word search

This project models four components of the robot's code base and proves what they are for.

1. **The lidar data path** of the RPLIDAR serial driver: resynchronising frame parsers over a byte
   stream that arrives in arbitrary chunks (`FrameParser`), capsule checksums and the ready flag
   (`CapsuleReceiver`), the fixed-point expander (`CapsuleExpander`), the loop that cuts the node
   stream into scans (`ScanSplit`), whole runs and the true rotation behind them (`Revolution`), the
   driver object with its caching threads and grabber (`LidarDriver`, `NormalBatches`), the hand-off
   between the two threads as a state machine (`ScanHandoff`), complete sessions (`LidarSession`) and
   the repair-and-sort pass (`AscendScan`).
2. **The Alex packet codec** (`PacketCodec`): a reassembler with static state feeding a decoder with
   magic number and XOR checksum. The repository's three copies are the same.
3. **The AVR circular buffer** (`CircularBuffer`), a ring that refines a bounded queue.
4. **The sort and search exercise** (`WordSearch`).

Bytes and 16-bit fields are bounded integers, and exclusive or is defined on their bits. Angles are
integers with floor division where the source shifts right, and the remainder of C where it uses `%`.

The transport is a byte sequence and a schedule of arrivals: each pass of a read loop finds bytes
waiting (any number), times out, fails, or runs out of clock. Every theorem about the parsers holds
for all schedules. The other thread's stop request is the number of passes. `MAX_SCAN_NODES` is a
parameter of at least two; the header that defines it is not part of this model.

The three frame parsers are one loop in three copies, with different frame sizes and tests at the
first two offsets. The model has it once, with the format as a parameter.

Beside the definitions stand lemmas that say the same on bytes and literal numbers, without them:
`NodeParser`, `CapsuleParser`, `HeaderParser`, `CallOutcome`, `CapsuleFields`, `ExpandedFields`,
`RepairedAngles`, `DecodeOnWire`.

## What the code does not keep

Where the code and its documentation disagree the model follows the code. These results say so
exactly.

- The documentation promises scans whose nodes belong to one 360-degree turn. The first node of a
  scan is the last sample before 0 degrees, so it belongs to the turn before, and the last sample of
  the turn opens the next scan (`GapFreeRevolution`).
- The documentation promises a complete 360-degree scan. The cutting loop does not start afresh after
  a gap in the capsule stream, so a scan can miss an arc or mix turns. It is complete iff no arc was
  lost between the capsules that open and close it, and of a single turn iff no turn was
  (`OneRevolutionIff`, `SingleTurnIff`, `GapSpoilsScan`, `SessionScanIff`).
- The ready flag does not say that two capsules are neighbours. If the device turned on while it
  stayed set, turns are lost without a gap; if capsules of the same turn were lost, the samples before
  them are stretched over the arc (`KeptFlagSpoilsScan`, `SilenceKeepsFlag`, `AnglesTrueIff`).
- A scan longer than the buffer less one slot, or than the caller's buffer, is delivered without its
  last nodes (`ScanShape`, `HandoffSafe`).
- A timeout on the link in the middle of a frame loses its bytes but keeps the ready flag
  (`Adjacency`, `PartialTimeoutBreaksAdjacency`).
- Nothing in a session's start code clears the ready flag, and the constructor does not initialise
  it. Only a mark on the capsule that is discarded, or on the first one received, clears it; without
  either, a flag left set makes the session expand its first capsule against one cached before it
  (`StaleStartIff`, `StaleStart`, `RestartUsesStaleCapsule`).
- After a timeout inside the node parser the node loop cuts old nodes again
  (`ScheduleFeedsReceivedIff`, `StaleNodesFed`, `SilenceFeedsStaleNodes`). After a timeout of the
  batch's own clock the count stays reduced, and after one without any node it is zero for ever
  (`CountLostIff`, `StalledForGood`).
- Starting a session does not clear the scan and the signal an earlier one left behind: the first grab
  may return it (`GrabbedScanIsRevolution`, `EarlierScanOnce`, `EarlierScanIff`,
  `PublishedScanWaits`).
- Start angles of 360 degrees or more, which the field allows, may escape the single correction
  (`CorrectionSufficesIff`, `LargeStartEscapes`).
- A grab that wakes without a scan reports a timeout but leaves the caller's count at the size of its
  buffer (`GrabScanData`). It can happen without a spurious wake-up: a scan published while the
  grabber is between its wake-up and the lock is taken by it, and leaves its signal behind
  (`StaleSignalReachable`, `EmptyWakeIff`).
- The packet decoder does not test the size field. Within the data field a wrong size is found out by
  the checksum iff the bytes misread for it have a nonzero XOR (`SizeErrorDetectedIff`). Beyond it
  behaviour is undefined, so `Deserialize` requires that a completed packet has a size within the
  data field and the output.

## Model

| member | source | states |
|---|---|---|
| LidarSession.GrabbedScanIsRevolution | rplidar_sdk_v1.5.7/sdk/sdk/include/rplidar_driver.h:172-177 | For any chunking of a clean capsule stream with valid start angles and no first-capsule mark but on its first two capsules, any flag and cached capsule unless they start the session stale, any hand-off left by earlier sessions and any interleaving with the grabber: each new delivery is one complete revolution of this session, cut to the scan buffer and the caller's buffer, but for at most the first, which may be the last scan of an earlier session if that was still waiting |
| LidarSession.CleanSessionRevolutions | rplidar_sdk_v1.5.7/sdk/sdk/src/rplidar_driver.cpp:474-522 | However the bytes are chunked, a session that does not start stale publishes exactly the complete revolutions of its capsules from the second one on, whether or not its first two are marked as first |
| LidarSession.SessionScanIff | rplidar_sdk_v1.5.7/sdk/sdk/src/rplidar_driver.cpp:474-522 | On any line, with any bytes, rejections, timeouts and marks, and any flag and cached capsule: a published scan runs from one sync node to the next, cut to what fits; its samples lie in one turn iff no turn is lost from the capsule that emitted the first to the one that emitted the second, and are a complete revolution iff no arc is |
| LidarSession.MarkedCapsuleOpensGap | rplidar_sdk_v1.5.7/sdk/sdk/src/rplidar_driver.cpp:764-771 | Bytes that lead to such a gap: a clean line with a capsule marked as first in mid-session |
| LidarSession.SilenceKeepsFlag | rplidar_sdk_v1.5.7/sdk/sdk/src/rplidar_driver.cpp:714-718 | Bytes that keep the flag over a silence of any length: a link timeout that swallows only a stray byte |
| LidarSession.StaleStartIff | rplidar_sdk_v1.5.7/sdk/sdk/src/rplidar_driver.cpp:474-498 | On a clean line, with any flags: what a session cuts is independent of the capsule cached by an earlier one iff the ready flag was clear or the discarded or the first received capsule is marked as first |
| LidarSession.StaleStart | rplidar_sdk_v1.5.7/sdk/sdk/src/rplidar_driver.cpp:474-498 | Otherwise the stream is one expansion, from the stale capsule to the first one received, followed by the stream of a session with the flag clear |
| LidarSession.RestartUsesStaleCapsule | rplidar_sdk_v1.5.7/sdk/sdk/src/rplidar_driver.cpp:474-512 | After two passes such a session has published a scan iff both expansions wrap, and its first node was computed from the stale capsule; a session with the flag clear has published nothing |
| LidarSession.CleanNodeSession | rplidar_sdk_v1.5.7/sdk/sdk/src/rplidar_driver.cpp:371-412 | On a clean line of nodes, in any chunking, and with clocks that cut no batch short, the node session publishes the scans of everything after the first 128 nodes |
| LidarSession.NodeSession | rplidar_sdk_v1.5.7/sdk/sdk/src/rplidar_driver.cpp:371-412 | So it does under any schedule that completes the nodes asked for, and with any patience of the batch clocks: the scans are those of the nodes sent, but for the first batch |
| Revolution.GapFreeRevolution | rplidar_sdk_v1.5.7/sdk/sdk/src/rplidar_driver.cpp:414-518 | In every gap-free run each published scan is the last sample before 0 degrees followed by all samples of one turn but the last, in angular order and without a missing arc, cut to the buffer less one slot; turns follow one another |
| Revolution.OneRevolutionIff | rplidar_sdk_v1.5.7/sdk/sdk/src/rplidar_driver.cpp:500-517 | In any run, whatever was lost: the nodes from one sync node to the next are one complete revolution iff, from the capsule that emitted the first to the one before that which emitted the second, each capsule starts at the angle up to which samples were emitted |
| Revolution.SingleTurnIff | rplidar_sdk_v1.5.7/sdk/sdk/src/rplidar_driver.cpp:500-517 | They lie in a single turn iff the device started no turn in between that shows up in no sample, in a gap or under a flag that stayed set |
| Revolution.RevolutionCovers | rplidar_sdk_v1.5.7/sdk/sdk/include/rplidar_driver.h:172-175 | Every angle of the turn of a complete revolution lies in one of its samples |
| Revolution.GapSpoilsScan | rplidar_sdk_v1.5.7/sdk/sdk/src/rplidar_driver.cpp:488-512 | For any two capsule pairs with a gap between them, one scan is published: a complete revolution iff the device did not move on in the gap, and of a single turn iff it started none |
| Revolution.KeptFlagSpoilsScan | rplidar_sdk_v1.5.7/sdk/sdk/src/rplidar_driver.cpp:714-718 | For any three capsules with the flag kept, one scan is published: of a single turn, and complete, iff the device made no full turn more than the expander takes it for |
| Revolution.AnglesTrueIff | rplidar_sdk_v1.5.7/sdk/sdk/src/rplidar_driver.cpp:418-448 | The samples of a capsule get their own angles iff the capsule it is paired with starts where they end, up to one wrap-around |
| Revolution.RotationConserved | rplidar_sdk_v1.5.7/sdk/sdk/src/rplidar_driver.cpp:418-448 | Over any gap-free run the first start angle plus the expanded differences equals the last start angle plus 360 degrees per sync node |
| Revolution.PairSyncCount | rplidar_sdk_v1.5.7/sdk/sdk/src/rplidar_driver.cpp:423-448 | A capsule pair emits one sync node if its start angle decreased and none otherwise |
| Revolution.SyncCount | rplidar_sdk_v1.5.7/sdk/sdk/src/rplidar_driver.cpp:442-448 | Along contiguous samples the sync nodes count exactly the turns begun |
| Revolution.StreamTraced | rplidar_sdk_v1.5.7/sdk/sdk/src/rplidar_driver.cpp:414-471 | In every physically possible run, with any capsules lost and any flags, samples move forward and a node's sync bit is set iff its sample ends in the next turn |
| Revolution.StreamMeasured | rplidar_sdk_v1.5.7/sdk/sdk/src/rplidar_driver.cpp:438-460 | Each node's angle field is its sample's unrolled angle less an offset below eight degrees, reduced to one turn |
| Revolution.GapFreeContiguous | rplidar_sdk_v1.5.7/sdk/sdk/src/rplidar_driver.cpp:427-448 | In a gap-free run every sample starts where the one before ended, from the first capsule's angle to the last's |
| CapsuleExpander.SyncBitIsTurnChange | rplidar_sdk_v1.5.7/sdk/sdk/src/rplidar_driver.cpp:441-448 | The remainder test on the raw angle is true exactly when the next raw angle is in the next turn |
| CapsuleExpander.NoDrift | rplidar_sdk_v1.5.7/sdk/sdk/src/rplidar_driver.cpp:422-428 | Thirty-two increments land exactly on the next start angle, plus a turn on wrap-around |
| CapsuleExpander.NoOverflow | rplidar_sdk_v1.5.7/sdk/sdk/src/rplidar_driver.cpp:418-448 | For all capsules every intermediate value fits 32 bits |
| CapsuleExpander.CorrectionSufficesIff | rplidar_sdk_v1.5.7/sdk/sdk/src/rplidar_driver.cpp:441-453 | One correction by a turn normalises every sample for every cabin content iff the last raw angle is below two turns |
| CapsuleExpander.EmittedAngle | rplidar_sdk_v1.5.7/sdk/sdk/src/rplidar_driver.cpp:450-460 | With start angles below 360 degrees the emitted field is the normalised angle and the check bit is set |
| CapsuleExpander.LargeStartEscapes | rplidar_sdk_v1.5.7/sdk/sdk/src/rplidar_driver.cpp:419-453 | Start angles the 15-bit field allows but the device does not send can leave an emitted angle at a turn or more |
| CapsuleExpander.EmittedNodeParses | rplidar_sdk_v1.5.7/sdk/sdk/src/rplidar_driver.cpp:455-463 | An emitted node, put on the wire, is accepted by the node parser and decodes to itself |
| CapsuleExpander.CabinUnpacks | rplidar_sdk_v1.5.7/sdk/sdk/include/rplidar_cmd.h:126-134 | Distances and 6-bit offsets packed into a cabin come back unchanged for both samples |
| CapsuleExpander.ExpandedFields | rplidar_sdk_v1.5.7/sdk/sdk/src/rplidar_driver.cpp:414-471 | Every field of every emitted node in the fields of the two capsules: distance with its low two bits cleared, angle k parts in 32 of the way to the next start angle less the sample's own offset, modulo 360 degrees, check bit set, sync bit iff the full turn lies before the next sample, its inverse otherwise, quality |
| CapsuleExpander.EmittedQuality | rplidar_sdk_v1.5.7/sdk/sdk/src/rplidar_driver.cpp:455-458 | Whatever the start angles, full quality iff there is a distance, and sync bit and inverse differ |
| ScanSplit.CutStep | rplidar_sdk_v1.5.7/sdk/sdk/src/rplidar_driver.cpp:500-517 | One pass of the cutting loop keeps the local buffer equal to the open segment cut to all but the last slot, and publishes exactly what the declarative split adds |
| ScanSplit.ScansSnoc | rplidar_sdk_v1.5.7/sdk/sdk/src/rplidar_driver.cpp:502-514 | Only a sync node closes a segment, and only if one is open |
| ScanSplit.ScanShape | rplidar_sdk_v1.5.7/sdk/sdk/include/rplidar_driver.h:172-176 | Each scan starts with a sync node, holds no other and is shorter than the buffer |
| ScanSplit.SyncPositionsIff | rplidar_sdk_v1.5.7/sdk/sdk/src/rplidar_driver.cpp:502 | The positions at which the stream is cut are exactly those of its sync nodes |
| ScanSplit.SyncPositionsConcat | rplidar_sdk_v1.5.7/sdk/sdk/src/rplidar_driver.cpp:498-517 | Where a stream is cut does not depend on how it was batched |
| FrameParser.WaitAgrees | rplidar_sdk_v1.5.7/sdk/sdk/src/rplidar_driver.cpp:710-777 | Every schedule of chunks gives the result, frame and remaining bytes of a byte-at-a-time automaton |
| FrameParser.ChunkInvariance | rplidar_sdk_v1.5.7/sdk/sdk/src/rplidar_driver.cpp:624-668 | Two chunkings that both deliver a frame deliver the same one and leave the same bytes |
| FrameParser.CompletesOnLastByte | rplidar_sdk_v1.5.7/sdk/sdk/src/rplidar_driver.cpp:835-870 | A chunk capped at the missing size can complete a frame only with its last byte, so none is dropped |
| FrameParser.PatientWaitFrames | rplidar_sdk_v1.5.7/sdk/sdk/src/rplidar_driver.cpp:710-777 | If the pending bytes hold a frame and bytes keep coming, the wait ends with it |
| FrameParser.ParseConsecutive | rplidar_sdk_v1.5.7/sdk/sdk/src/rplidar_driver.cpp:724-752 | A returned frame is the last stretch of consecutive bytes consumed |
| FrameParser.ParseTested | rplidar_sdk_v1.5.7/sdk/sdk/src/rplidar_driver.cpp:726-751 | A returned or partly collected frame passed the tests at its first two offsets |
| FrameParser.ResyncIff | rplidar_sdk_v1.5.7/sdk/sdk/src/rplidar_driver.cpp:724-776 | Behind any bytes the next frame is the first found iff each of those bytes that could start a frame is followed by one that cannot continue it: a byte rejected at the second offset is not tried as a first byte |
| FrameParser.SkippedIff | rplidar_sdk_v1.5.7/sdk/sdk/src/rplidar_driver.cpp:726-750 | Such bytes, and no others, leave the parser empty without a frame |
| FrameParser.JunkIsSkipped | rplidar_sdk_v1.5.7/sdk/sdk/src/rplidar_driver.cpp:727-737 | Bytes that cannot start a frame are skipped |
| FrameParser.NodeParser | rplidar_sdk_v1.5.7/sdk/sdk/src/rplidar_driver.cpp:640-663 | The node parser as a recursion on bytes: a byte with bits 0 and 1 alike is dropped, a pair whose second byte has bit 0 clear is dropped, any other five bytes are a frame |
| FrameParser.CapsuleParser | rplidar_sdk_v1.5.7/sdk/sdk/src/rplidar_driver.cpp:726-753 | The same for capsules: high nibbles 0xA and 0x5, 84 bytes |
| FrameParser.HeaderParser | rplidar_sdk_v1.5.7/sdk/sdk/src/rplidar_driver.cpp:851-867 | The same for response headers: 0xA5, 0x5A, seven bytes |
| FrameParser.HeaderDelivered | rplidar_sdk_v1.5.7/sdk/sdk/src/rplidar_driver.cpp:827-874 | Behind bytes that are not 0xA5 every response header is delivered if bytes keep coming |
| FrameParser.NodeDelivered | rplidar_sdk_v1.5.7/sdk/sdk/src/rplidar_driver.cpp:616-672 | Behind bytes that cannot start a node any five bytes that pass the two tests are delivered |
| FrameParser.DeliveredFramesTested | rplidar_sdk_v1.5.7/sdk/sdk/src/rplidar_driver.cpp:616-874 | On any line a delivered frame has the length and first two bytes of its format |
| FrameParser.WaitStops | rplidar_sdk_v1.5.7/sdk/sdk/src/rplidar_driver.cpp:710-781 | A wait uses up its schedule one pass at a time and the last pass tells how it ends |
| FrameParser.TakeChunk | rplidar_sdk_v1.5.7/sdk/sdk/src/rplidar_driver.cpp:724-777 | The inner byte loop equals the automaton on its chunk, and reports a rejection iff bytes taken and bytes held differ |
| FrameParser.WaitFrame | rplidar_sdk_v1.5.7/sdk/sdk/src/rplidar_driver.cpp:710-781 | The read loop equals the chunked specification for every schedule; a rejection is seen iff more bytes were taken than are held |
| LidarFrames.CapsuleRoundTrip | rplidar_sdk_v1.5.7/sdk/sdk/include/rplidar_cmd.h:130-147 | An encoded capsule decodes to itself |
| LidarFrames.EncodedChecksumMatches | rplidar_sdk_v1.5.7/sdk/sdk/src/rplidar_driver.cpp:756-763 | The checksum nibbles of an encoded capsule match its body |
| LidarFrames.BodyErrorDetected | rplidar_sdk_v1.5.7/sdk/sdk/src/rplidar_driver.cpp:756-763 | Any one wrong byte at offsets 2 to 83 breaks the checksum |
| LidarFrames.NibbleErrorDetected | rplidar_sdk_v1.5.7/sdk/sdk/src/rplidar_driver.cpp:757 | Any one wrong checksum nibble breaks it too |
| LidarFrames.NodeRoundTrip | rplidar_sdk_v1.5.7/sdk/sdk/include/rplidar_cmd.h:120-124 | A node's five bytes decode to it |
| LidarFrames.NodeFields | rplidar_sdk_v1.5.7/sdk/sdk/include/rplidar_cmd.h:120-124 | Where quality, sync bit, angle, check bit and distance lie in a node's five bytes |
| LidarFrames.CapsuleFields | rplidar_sdk_v1.5.7/sdk/sdk/include/rplidar_cmd.h:126-147 | Where the start angle, the first-capsule mark and each cabin lie in a capsule's 84 bytes, least significant byte first |
| LidarFrames.ChecksumNibbles | rplidar_sdk_v1.5.7/sdk/sdk/src/rplidar_driver.cpp:756-763 | The checksum's low nibble is carried in the first byte and its high nibble in the second |
| Bytes.XorIsBitwise | rplidar_sdk_v1.5.7/sdk/sdk/src/rplidar_driver.cpp:761 | A bit of the exclusive or is set iff the operands differ in it |
| Bytes.XorAllDetects | rplidar_sdk_v1.5.7/sdk/sdk/src/rplidar_driver.cpp:758-762 | The XOR of a block changes exactly when the replaced byte differs |
| Bytes.XorAllConcat | w9s2/tls-server-lib/serialize.cpp:101-106 | The XOR of a concatenation is that of its parts |
| CapsuleReceiver.CapsuleSound | rplidar_sdk_v1.5.7/sdk/sdk/src/rplidar_driver.cpp:724-776 | A good answer carries the last 84 bytes consumed, with both nibbles and a matching checksum; flag still set means nothing else was consumed |
| CapsuleReceiver.CallOutcome | rplidar_sdk_v1.5.7/sdk/sdk/src/rplidar_driver.cpp:702-781 | The whole outcome of a call on any line, told from the last pass of the schedule it used and the bytes: fault, silence and clock with their answers and flags; a complete frame with its checksum test, and the flag kept iff nothing else was taken and bit 7 of byte 3 is clear |
| CapsuleReceiver.NoFirstNibbleIsSkipped | rplidar_sdk_v1.5.7/sdk/sdk/src/rplidar_driver.cpp:729-735 | Bytes without a high nibble 0xA are skipped by the capsule parser |
| CapsuleReceiver.EncodedCapsuleAccepted | rplidar_sdk_v1.5.7/sdk/sdk/src/rplidar_driver.cpp:724-773 | Behind bytes that are skipped an encoded capsule is accepted, and the flag survives iff there was no junk and it is not a first capsule |
| CapsuleReceiver.CorruptedCapsuleRejected | rplidar_sdk_v1.5.7/sdk/sdk/src/rplidar_driver.cpp:763-775 | With one body byte changed it is rejected as invalid data and the flag is cleared |
| CapsuleReceiver.Adjacency | rplidar_sdk_v1.5.7/sdk/sdk/src/rplidar_driver.cpp:733-781 | Two capsules the expander pairs are byte-adjacent iff no call between them timed out holding bytes |
| CapsuleReceiver.PartialTimeoutBreaksAdjacency | rplidar_sdk_v1.5.7/sdk/sdk/src/rplidar_driver.cpp:714-718 | For all capsules a timeout that swallows a byte keeps the flag, and non-adjacent frames are paired |
| CapsuleReceiver.CleanSession | rplidar_sdk_v1.5.7/sdk/sdk/src/rplidar_driver.cpp:486-498 | On a clean line, in any chunking, the session receives exactly the capsules sent; each but the first finds the flag set, unless it is marked as a first capsule |
| CapsuleReceiver.FramedSession | rplidar_sdk_v1.5.7/sdk/sdk/src/rplidar_driver.cpp:486-498 | On a line of frames back to back, in any chunking, exactly those with a matching checksum are received, and each finds the flag set iff the one before was received and it is not marked as first |
| NormalBatches.FeedIsReceivedIff | rplidar_sdk_v1.5.7/sdk/sdk/src/rplidar_driver.cpp:382-408 | Over any run on any line the loop cuts exactly the nodes received, once each and in order, iff no wait for a node times out before the link fails; otherwise it cuts more |
| NormalBatches.ScheduleFeedsReceivedIff | rplidar_sdk_v1.5.7/sdk/sdk/src/rplidar_driver.cpp:382-408 | On a line of nodes, told from the schedule: it cuts exactly the nodes received iff the schedule completes all that are asked for before its first timeout, or stops with a failure |
| NormalBatches.ScheduleFailsIff | rplidar_sdk_v1.5.7/sdk/sdk/src/rplidar_driver.cpp:384-389 | In either of these cases the loop reports a failed link iff the schedule fails before it has completed all that is asked for |
| NormalBatches.FailsOnlyOnFault | rplidar_sdk_v1.5.7/sdk/sdk/src/rplidar_driver.cpp:382-389 | The loop never reports a failed link on a line without a fault, whatever bytes it carries and whatever times out |
| NormalBatches.ScheduleFeed | rplidar_sdk_v1.5.7/sdk/sdk/src/rplidar_driver.cpp:382-408 | If the schedule completes them, the loop cuts the nodes sent, once each and in order, even when batch clocks shorten batches |
| NormalBatches.BatchForeseen | rplidar_sdk_v1.5.7/sdk/sdk/src/rplidar_driver.cpp:675-699 | One batch: the nodes the schedule completes, up to the count and to what the clock allows, and the exact way it ends |
| NormalBatches.StaleNodesFed | rplidar_sdk_v1.5.7/sdk/sdk/src/rplidar_driver.cpp:384-391 | If a timeout stops a batch short, the pass cuts the nodes that came and then old ones up to the count |
| NormalBatches.SilenceFeedsStaleNodes | rplidar_sdk_v1.5.7/sdk/sdk/src/rplidar_driver.cpp:384-391 | For instance for any nodes, fewer than asked for, followed by silence |
| NormalBatches.FedIsReceivedIff | rplidar_sdk_v1.5.7/sdk/sdk/src/rplidar_driver.cpp:384-391 | One pass cuts exactly what its batch received iff the node parser did not time out |
| NormalBatches.CountLostIff | rplidar_sdk_v1.5.7/sdk/sdk/src/rplidar_driver.cpp:687-698 | A batch that asks for nodes leaves a count of zero iff its clock ran out before the first |
| NormalBatches.StalledForGood | rplidar_sdk_v1.5.7/sdk/sdk/src/rplidar_driver.cpp:687-698 | After such a batch, at any point of any run, no later pass cuts a node, whatever the line delivers |
| NormalBatches.CleanFeed | rplidar_sdk_v1.5.7/sdk/sdk/src/rplidar_driver.cpp:382-408 | On a clean line, in any chunking, the loop cuts the nodes sent, once each and in order, as many as are asked for |
| NormalBatches.OnWireIff | rplidar_sdk_v1.5.7/sdk/sdk/src/rplidar_driver.cpp:652-661 | The nodes assumed on a clean line are exactly those whose five bytes the parser delivers |
| LidarDriver.Driver.WaitNode | rplidar_sdk_v1.5.7/sdk/sdk/src/rplidar_driver.cpp:616-672 | Equals the chunked specification of the node parser, decoded; a delivered node has its check bit set and sync bit and inverse different |
| LidarDriver.Driver.WaitResponseHeader | rplidar_sdk_v1.5.7/sdk/sdk/src/rplidar_driver.cpp:827-874 | Equals the chunked specification of the header parser; a delivered header is seven bytes with both sync bytes |
| LidarDriver.Driver.WaitCapsuledNode | rplidar_sdk_v1.5.7/sdk/sdk/src/rplidar_driver.cpp:702-781 | Equals the specified call: answer, frame, remaining bytes and ready flag; after a good answer the flag is set iff it was, 84 bytes were taken and the mark is clear |
| LidarDriver.Driver.CapsuleToNormal | rplidar_sdk_v1.5.7/sdk/sdk/src/rplidar_driver.cpp:414-471 | Fills the buffer with the expansion of the cached capsule up to the new one iff the flag is set, then caches the new one and sets the flag |
| LidarDriver.Driver.CutNode | rplidar_sdk_v1.5.7/sdk/sdk/src/rplidar_driver.cpp:502-516 | Keeps the cutting state and publishes what the split of the longer stream adds |
| LidarDriver.Driver.CutBatch | rplidar_sdk_v1.5.7/sdk/sdk/src/rplidar_driver.cpp:500-517 | For any batch, what has been published is the split of the whole stream so far |
| LidarDriver.Driver.Publish | rplidar_sdk_v1.5.7/sdk/sdk/src/rplidar_driver.cpp:506-512 | The cached buffer and count hold the scan, the event is set and the scan is logged last |
| LidarDriver.Driver.CacheCapsuledScanData | rplidar_sdk_v1.5.7/sdk/sdk/src/rplidar_driver.cpp:474-522 | Publishes the split of the stream its session of calls expands to, from any starting flag and cached capsule; fails iff the link failed |
| LidarDriver.Driver.WaitScanData | rplidar_sdk_v1.5.7/sdk/sdk/src/rplidar_driver.cpp:675-699 | Equals the specified batch: nodes in front, the rest of the buffer unchanged, count updated only on the batch clock |
| LidarDriver.Driver.CacheScanData | rplidar_sdk_v1.5.7/sdk/sdk/src/rplidar_driver.cpp:371-412 | Publishes the split of the node feed, stale nodes included; fails iff the link fails within the passes made |
| LidarDriver.Driver.GrabScanData | rplidar_sdk_v1.5.7/sdk/sdk/src/rplidar_driver.cpp:524-549 | Delivers the latest scan cut to the caller's count, leaves the rest of the caller's buffer alone and consumes the scan; a wake-up without a scan is a timeout that leaves the count alone |
| LidarDriver.Event.Set | rplidar_sdk_v1.5.7/sdk/sdk/src/hal/event.h:70-96 | The event is signalled, or reset, whatever it was |
| LidarDriver.Event.Wait | rplidar_sdk_v1.5.7/sdk/sdk/src/hal/event.h:98-164 | Succeeds at once when signalled, resets itself on success only, and fails without a change |
| ScanHandoff.HandoffSafe | rplidar_sdk_v1.5.7/sdk/sdk/src/rplidar_driver.cpp:506-549 | Over every interleaving: deliveries are cut copies of published scans, in order and none twice, a waiting scan is always announced, and only a delivery consumes it |
| ScanHandoff.RunSafe | rplidar_sdk_v1.5.7/sdk/sdk/src/rplidar_driver.cpp:506-549 | Every sequence of atomic actions keeps the hand-off invariant |
| ScanHandoff.EarlierScanOnce | rplidar_sdk_v1.5.7/sdk/sdk/src/rplidar_driver.cpp:506-549 | Over any continuation of any safe state a new delivery is of a newer scan than those published before, unless it is the first one and a scan was waiting |
| ScanHandoff.EarlierScanIff | rplidar_sdk_v1.5.7/sdk/sdk/src/rplidar_driver.cpp:232-270 | From rest some continuation delivers an earlier scan first iff one is waiting: starting a session clears neither the count nor the event |
| ScanHandoff.PublishedScanWaits | rplidar_sdk_v1.5.7/sdk/sdk/src/rplidar_driver.cpp:506-512 | Such a state is reached by any publication that nobody takes |
| ScanHandoff.WaitingScanIsGrabbed | rplidar_sdk_v1.5.7/sdk/sdk/src/rplidar_driver.cpp:524-543 | If a scan waits while both threads rest, a grab does not block and delivers the latest scan |
| ScanHandoff.StaleSignalReachable | rplidar_sdk_v1.5.7/sdk/sdk/src/rplidar_driver.cpp:524-549 | From rest at any point of any run, two publications overtaking one wake-up lead to rest with the event set and no scan waiting |
| ScanHandoff.EmptyWakeIff | rplidar_sdk_v1.5.7/sdk/sdk/src/rplidar_driver.cpp:524-534 | From rest a wake-up finds no scan iff nothing was published or the latest scan was delivered already, and resets the event |
| ScanHandoff.PublishesScan | rplidar_sdk_v1.5.7/sdk/sdk/src/rplidar_driver.cpp:506-512 | The publisher's steps, undisturbed, replace buffer, count and latest scan and set the event, even over a scan nobody took |
| ScanHandoff.DeliveredScansStartWithSync | rplidar_sdk_v1.5.7/sdk/sdk/include/rplidar_driver.h:172-175 | Every non-empty delivery starts with a sync node and holds no other |
| AscendScan.AscendScanData | rplidar_sdk_v1.5.7/sdk/sdk/src/rplidar_driver.cpp:551-614 | Fails iff every distance is zero, changing nothing; otherwise leaves the repaired scan sorted by angle field |
| AscendScan.AscendKeepsValidNodes | rplidar_sdk_v1.5.7/sdk/sdk/src/rplidar_driver.cpp:551-614 | The result is a permutation of the input but for angles, and every node with a distance appears as often as before, angle included |
| AscendScan.RepairKeeps | rplidar_sdk_v1.5.7/sdk/sdk/src/rplidar_driver.cpp:556-600 | Only angles of nodes without a distance change; sync, quality, distance and check bit never do |
| AscendScan.RepairedWithinTurn | rplidar_sdk_v1.5.7/sdk/sdk/src/rplidar_driver.cpp:591-600 | If valid nodes lie within a turn, so do all repaired ones: one fold is enough |
| AscendScan.RepairedAngles | rplidar_sdk_v1.5.7/sdk/sdk/src/rplidar_driver.cpp:553-600 | Every repaired angle in 64ths of a degree: the front one counted down from the first valid node by a turn over the node count, others without a distance spaced evenly from the front one and folded once, the rest unchanged |
| AscendScan.TailAngles | rplidar_sdk_v1.5.7/sdk/sdk/src/rplidar_driver.cpp:575-589 | The tail pass counts up by the same step |
| AscendScan.TailPassRedundant | rplidar_sdk_v1.5.7/sdk/sdk/src/rplidar_driver.cpp:575-600 | Dropping the tail pass gives the same buffer, because the fill pass overwrites all it changed |
| AscendScan.TuneHead | rplidar_sdk_v1.5.7/sdk/sdk/src/rplidar_driver.cpp:556-573 | Finds a valid node iff one exists, and counts angles down from the first one to the front |
| AscendScan.TuneTail | rplidar_sdk_v1.5.7/sdk/sdk/src/rplidar_driver.cpp:575-589 | The unbounded downward loop stops at the last valid node, and angles are counted up from it |
| AscendScan.FillInvalid | rplidar_sdk_v1.5.7/sdk/sdk/src/rplidar_driver.cpp:591-600 | Nodes without a distance get evenly spaced angles from the front angle |
| AscendScan.Reorder | rplidar_sdk_v1.5.7/sdk/sdk/src/rplidar_driver.cpp:602-611 | The exchange sort orders by angle field and permutes |
| PacketCodec.AssembledIsChop | w9s2/tls-server-lib/serialize.cpp:23-82 | For any pieces the completed packets and the bytes held are those of the concatenated stream |
| PacketCodec.CompletesInTime | w9s2/tls-server-lib/serialize.cpp:56-81 | After any number of calls as many packets are out as fit in the bytes received; packets and held bytes together are the input |
| PacketCodec.StreamRoundTrip | w9s2/tls-server-lib/serialize.cpp:85-145 | Any payloads, with any filler and in any pieces, come back once each, in order and intact |
| PacketCodec.StreamDecodes | w9s2/tls-server-lib/serialize.cpp:85-119 | Whatever packets hold, each is decoded on its own, in any pieces |
| PacketCodec.ErrorIsIsolated | w9s2/tls-server-lib/serialize.cpp:94-116 | One wrong data, checksum or magic byte costs that packet, with the right code, and no other |
| PacketCodec.PacketRoundTrip | w9s2/tls-server-lib/serialize.cpp:121-145 | A packet decodes to its payload whatever filled the bytes the encoder leaves unset |
| PacketCodec.PacketOnWire | w9s2/tls-server-lib/serialize.cpp:7-21 | The 140 bytes of a packet: FF FE FD FC, the size least significant byte first, the data at 8, the checksum at 136 |
| PacketCodec.DecodeOnWire | w9s2/tls-server-lib/serialize.cpp:94-119 | What any 140 bytes decode to, byte by byte |
| PacketCodec.DataErrorDetected | w9s2/tls-server-lib/serialize.cpp:101-110 | One wrong data or checksum byte is a bad checksum |
| PacketCodec.MagicErrorDetected | w9s2/tls-server-lib/serialize.cpp:94-99 | One wrong magic byte is a bad packet |
| PacketCodec.SizeErrorDetectedIff | w9s2/tls-server-lib/serialize.cpp:101-112 | A wrong size within the data field is a bad checksum iff the bytes misread for it have a nonzero XOR, else the payload comes back cut or extended; beyond the data field nothing tests it |
| PacketCodec.Receiver.Assemble | w9s2/tls-server-lib/serialize.cpp:23-82 | The static state refines the held bytes: one call completes the first 140 bytes held and received, if there are so many, and holds the rest |
| PacketCodec.Receiver.Deserialize | w9s2/tls-server-lib/serialize.cpp:85-119 | Returns the code of the completed packet, each code exactly for its case; the output changes only for a good packet, and then only in its first bytes |
| PacketCodec.Serialize | w9s2/tls-server-lib/serialize.cpp:121-145 | Writes the packet of the payload to the front of the buffer |
| CircularBuffer.FirstInFirstOut | w8s1pi/buffer/buffer.cpp:46-111 | Over any script of reads and writes, bytes held and accepted are bytes returned and still held, within capacity |
| CircularBuffer.ReturnedInOrder | w8s1pi/buffer/buffer.cpp:46-111 | From an empty buffer the k-th byte returned is the k-th byte accepted |
| CircularBuffer.WritesAccepted | w8s1pi/buffer/buffer.cpp:55-76 | Of any number of writes in a row as many are accepted as there is room |
| CircularBuffer.RingAppend | w8s1pi/buffer/buffer.cpp:70-72 | Writing at the back index appends to the ring's contents, wrapped or not |
| CircularBuffer.RingAdvance | w8s1pi/buffer/buffer.cpp:105-107 | The front byte is the first of the contents, and moving on drops it |
| CircularBuffer.TBuffer.InitBuffer | w8s1pi/buffer/buffer.cpp:37-44 | An empty queue of the given size, or an unusable one without memory or size |
| CircularBuffer.TBuffer.WriteBuffer | w8s1pi/buffer/buffer.cpp:55-76 | Accepts a byte iff the buffer is usable and holds fewer than its size, appending it; full and invalid cases unchanged; the status register is restored on every path |
| CircularBuffer.TBuffer.ReadBuffer | w8s1pi/buffer/buffer.cpp:89-111 | Returns and removes the oldest byte iff there is one; the caller's byte changes only on success; the status register is restored on every path |
| CircularBuffer.TBuffer.FreeBuffer | w8s1pi/buffer/buffer.cpp:120-130 | The buffer becomes unusable |
| CircularBuffer.TBuffer.DataAvailable | w8s1pi/buffer/buffer.cpp:132-135 | True iff the queue holds a byte |
| WordSearch.Compare | W2S2_Codes/strMS.c:45-92 | On any dictionary and query both sorts leave the same sorted array and the three searches agree with membership |
| WordSearch.StrCmpTotalOrder | W2S2_Codes/strMS.c:25 | strcmp is a total order on words |
| WordSearch.StrCmpSign | W2S2_Codes/strMS.c:25 | strcmp is negative iff the words agree up to a position where the first ends or has the smaller letter |
| WordSearch.SortedIff | W2S2_Codes/strMS.c:24-33 | Sorted means that no word stands behind one it precedes so |
| WordSearch.SortedIsUnique | W2S2_Codes/strSBS.c:9-22 | A sorted arrangement of given words is unique |
| WordSearch.MergedSorted | W2S2_Codes/strMS.c:24-33 | Merging sorted halves gives a sorted whole |
| WordSearch.MergedPermutes | W2S2_Codes/strMS.c:24-33 | Merging keeps every word as often as before |
| WordSearch.M | W2S2_Codes/strMS.c:9-43 | Replaces the range by the merge of its halves and touches nothing else |
| WordSearch.MSort | W2S2_Codes/strMS.c:45-55 | Sorts the range, permutes it and touches nothing else |
| WordSearch.InsertionSort | W2S2_Codes/strSBS.c:9-22 | Sorts and permutes the array |
| WordSearch.BinarySearch | W2S2_Codes/strMS.c:71-92 | Returns an index of the word, or -1 iff it is absent |
| WordSearch.SearchDictionary | W2S2_Codes/strSearch.c:9-20 | True iff the word is present |

## Left out

- Serial port set-up, motor control, TLS, sockets, threads, user interfaces and plotting: calls into
  the system or foreign libraries with nothing unbounded to prove.
- Driver command wrappers and `_sendCommand`: linear request and response code that would only add
  easy members.
- Clocks: a timeout is an event of the schedule, or a number of clock tests passed; timer wrap-around
  is not modelled.
- More than one grabber, and weak memory: the hand-off has one grabber and atomic reads and writes.
- The Windows branch of the event: only the condition-variable branch is modelled. A wake-up without a
  signal, which the source guards by an assertion, is one of the hand-off's steps.
- AscendScanData: uses real arithmetic for the source's floats, because its guarantees do not depend on
  rounding.
- Driver.constructor: takes the initial ready flag and cached capsule as parameters, because the source
  leaves both uninitialised.
- CacheScanData: starts from arbitrary contents of the batch buffer, because the source does not
  initialise it.
- OneRevolutionIff: completeness is about the angles the expander gives the samples; when those are the
  device's own is stated by `AnglesTrueIff`.
- Deserialize: does not model size fields beyond the data field, because the source's behaviour is then
  undefined.
- Assemble: takes at most one packet's length per call, because the callers' buffers hold no more.
- WriteBuffer: assumes no interrupt between saving the status register and disabling interrupts.
- InitBuffer: gives a buffer that was never initialised a null block, because in the source that is
  only so in cleared memory.
- FreeBuffer: drops the reference to the block; reuse of freed memory is not modelled.
- MSort: leaves out the 32-byte bound on words and the loading of the dictionary from a file.
- The checksum bytes of the cached capsule, which the expander never reads, are not part of a capsule
  value.
