# Inspection robot: verified model

A Dafny model of the stateful core of a mobile inspection robot's software, with proofs of what it keeps over
whole runs. `dafny verify dfyconfig.toml` checks everything.

## What is modelled

| files | component |
|---|---|
| `ChassisPacket`, `MickStream`, `MickRuns`, `MickLoss` | the binary chassis protocol: frames, the resynchronising parser on its mutable buffer, and what arrives under any chunking, noise and corruption |
| `TextStream` | the line protocol; the parser of one line is a parameter |
| `Kinematics`, `ChassisAdapter`, `ChassisFaults`, `ChassisDriver` | wheel kinematics, the adapter on mock, text and binary backends, and the driver's ticks with its two odometries and its command watchdog |
| `Association`, `TargetTracking`, `TargetAssociation`, `TargetLifecycle` | the target manager: greedy association, duplicate suppression, the four-state lifecycle, retirement |
| `InspectionRuns` | the manager composed with the policy that raises inspection tasks, in the order the perception node calls them |
| `SafetyPolicy`, `SafetyRuns`, `SafetyDecisions` | the person-safety policy: classification with hysteresis inside a debounced state machine, and what it decides in terms of distances, zones and people |
| `Zones`, `ConvexZones`, `ZoneMasks` | polygon zones, the point query and what it finds on convex ones, and the rasterised masks that replace it |
| `DepthProjector` | depth sampling in a clipped region, the median in place, and the projection |
| `MissionQueue`, `MissionOrder`, `MissionBatch`, `MissionRuns` | the mission queue: sorting, pausing, dispatch, station order batches, and whole runs |

Objects that update their fields are classes. Each method is proved against a pure step function (`Drain`,
`AfterUpdate`, `AfterTick`, `AfterInput`, `Pop`, ...), and the theorems are about those functions and about runs
of them. Loops are loops with invariants.

Conventions. A `double` is a real with, where the code tests it, a finiteness flag (`Double`). Distances are
compared squared instead of through `sqrt` and `hypot`. Sine, cosine and arctangent are parameters; of them only
`sin^2 + cos^2 = 1` is used, and in `Kinematics.HeadingAdvances` that arctangent undoes the other two. Time stamps are
integers in nanoseconds. A thrown exception is `None` or an outcome flag. Clocks, input bytes and backend results are
parameters.

## What the proofs found

- A frame behind noise can be lost when a chunk ends between its two magic bytes, because a buffer without a
  complete magic pair is cleared whole. `MickLoss.ChunksLoseFrameExactly` says exactly when, for any chunks; streams of
  frames alone survive every chunking (`MickRuns.EncodedFramesAreDelivered`).
- Of the adapter's state only the fault code depends on how bytes were split over reads: exactly when a later packet
  masks an error and does not report that very fault itself (`ChassisFaults.FaultCodeExactly`, `ChassisFaults.ChunkingsAgreeExactly`).
- The two odometries differ exactly when a tick integrates a lateral command in differential drive, which a mode
  change with a held lateral command brings about (`ChassisDriver.PosesAgreeExactly`, `ChassisDriver.PosesAgreeByHistory`).
- The PROCESSED arm of `RemoveExpiredTargets` is unreachable (`TargetLifecycle.ProcessedArmIsUnreachable`).
- The safety policy compares the zone kind case-sensitively while zone validation lower-cases it: a zone of kind
  `Danger_Zone` is valid but never stops the robot (`SafetyRuns.DangerZonesStopExactly`, `SafetyRuns.CapitalisedDangerZone`).
  The model follows the code on both sides.
- A zone with a coordinate that is not finite, which only validation keeps out, still contains the points on its edges
  before the broken one (`Zones.BrokenZoneContains`).
- A box centred in the outer half of the last column or row can have an empty region of interest
  (`DepthProjector.RoiEmptyExactly`).
- Speed limits above about 21 million m/s can wrap in the narrowing to `int` (`ZoneMasks.MaskValueExactly`).
- A batch with a rejected first order loses its request for an immediate start
  (`MissionBatch.StartNeedsTheFirstOrder`).
- Cancelling a station order batch is by prefix and can reach missions of another batch
  (`MissionBatch.BatchCancelIsExact`, `MissionBatch.CancelReachesAnotherBatch`).

## Model

| member | source | states |
|---|---|---|
| ChassisPacket.Int16RoundTrip | src/robot_hardware/src/chassis_packet.cpp:19-27 | an int16 written anywhere in a payload reads back at its offset, and no two int16 have the same bytes |
| ChassisPacket.SumBytes | src/robot_hardware/src/chassis_packet.cpp:353-370 | the summing loop yields the 8-bit wrap-around sum of its range |
| ChassisPacket.ChecksumDetectsOneByte | src/robot_hardware/src/chassis_packet.cpp:499-507 | changing any single byte of the summed range changes the checksum |
| ChassisPacket.EncodeMickBinaryFrame | src/robot_hardware/src/chassis_packet.cpp:353-370 | the bytes written are magic, length, type, payload, checksum over length..payload, trailer, for every payload length including the truncating ones |
| ChassisPacket.EncodeMickSpeedCommand | src/robot_hardware/src/chassis_packet.cpp:372-379 | the frame of a speed command is the 0xf3 frame of its three clamped components |
| ChassisPacket.SpeedCommandReadsBack | src/robot_hardware/src/chassis_packet.cpp:34-37 | reading a speed command's payload back gives each component's nearest representable thousandth (saturated outside the int16 range) |
| ChassisPacket.SpeedCommandBytes | src/robot_hardware/src/chassis_packet.cpp:353-379 | a concrete speed command, byte for byte from magic to trailer |
| ChassisPacket.OdometryReadsBack | src/robot_hardware/src/chassis_packet.cpp:385-399 | an odometry report laid out as five 16-bit thousandths and a voltage in hundredths reads back field by field, whatever bytes follow |
| ChassisPacket.StateReadsBack | src/robot_hardware/src/chassis_packet.cpp:400-410 | a state report reads back: running exactly on status byte 0, the battery in hundredths of a volt, connected, no fault, no stop, no mode, whatever bytes follow |
| ChassisPacket.ShortStateReadsBack | src/robot_hardware/src/chassis_packet.cpp:400-410 | a state report of at most two bytes carries no battery; an empty one means running |
| ChassisPacket.DecodesExactly | src/robot_hardware/src/chassis_packet.cpp:385-413 | a frame decodes to a packet if and only if it is a state report or an odometry report of at least twelve bytes, and to one of that kind |
| MickStream.FindMagic | src/robot_hardware/src/chassis_packet.cpp:474-481 | the search finds the first magic pair, and finds nothing exactly when there is none |
| MickStream.MickBinaryPacketStream.constructor | src/robot_hardware/src/chassis_packet.cpp:457-458 | a new stream is empty, not overflowed, with no invalid frames |
| MickStream.MickBinaryPacketStream.Append | src/robot_hardware/src/chassis_packet.cpp:460-466 | exceeding the limit empties the buffer and latches the overflow flag; otherwise the bytes are appended |
| MickStream.MickBinaryPacketStream.ReceiveOne | src/robot_hardware/src/chassis_packet.cpp:474-515 | one loop iteration refines the pure pass: same packets, residual and invalid count for each of the three resynchronisation rules |
| MickStream.MickBinaryPacketStream.ReceiveAtMagic | src/robot_hardware/src/chassis_packet.cpp:481-515 | with the magic at the front: too short, bad length, incomplete, bad trailer, bad checksum or accepted, each with its own way on |
| MickStream.MickBinaryPacketStream.DrainPackets | src/robot_hardware/src/chassis_packet.cpp:472-518 | the drain loop terminates and refines the recursive drain in packets, residual and invalid count |
| MickStream.FrameAtFrontMeans | src/robot_hardware/src/chassis_packet.cpp:481-515 | behind the magic, by the byte values themselves: a length below 2 or a wrong trailer costs one byte, a wrong checksum the whole frame, each one error; an incomplete frame waits; a good one is decoded and consumed |
| MickStream.DrainIsSound | src/robot_hardware/src/chassis_packet.cpp:472-518 | on arbitrary bytes every packet emitted decodes a frame with right magic, length, checksum and trailer, at strictly increasing non-overlapping offsets, and the residual is a suffix of the input |
| MickStream.DrainSettles | src/robot_hardware/src/chassis_packet.cpp:472-518 | the residual is shorter than 7 bytes or is an incomplete frame behind its magic, always under 260 bytes, and a second drain changes nothing |
| MickRuns.ReceiveAll | src/robot_hardware/src/chassis_packet.cpp:460-518 | appending and draining chunk by chunk on the object follows the run specification |
| MickRuns.SegmentsDelivered | src/robot_hardware/src/chassis_packet.cpp:460-518 | noise, frames and frames with a wrong checksum, in any chunks none of which ends between magic bytes while six or more noise bytes are buffered before them: exactly the intact frames are delivered in order, the invalid count is the number of bad ones, the buffer ends empty |
| MickRuns.EncodedFramesAreDelivered | src/robot_hardware/src/chassis_packet.cpp:353-370 | for any frames with payloads of at most 253 bytes and any chunking whatever that does not overflow, exactly their decodings come out in order, nothing is invalid and nothing is left |
| MickRuns.OneChangedByteLosesOneFrame | src/robot_hardware/src/chassis_packet.cpp:496-515 | changing any one type, payload or checksum byte of one frame in a stream of frames loses exactly that frame and counts exactly one invalid frame, under every chunking |
| MickLoss.NoMagicNoPackets | src/robot_hardware/src/chassis_packet.cpp:477-480 | bytes without magic yield no packet and no error, however they are cut and whether or not they overflow |
| MickLoss.ChunksLoseFrameExactly | src/robot_hardware/src/chassis_packet.cpp:477-480 | a frame behind noise, in any chunks, is lost if and only if some chunk ends between its magic bytes while six or more noise bytes are buffered, counting that seven buffered noise bytes are cleared and fewer are kept; otherwise exactly its packet comes out |
| MickLoss.PartedFrameLeavesItsRest | src/robot_hardware/src/chassis_packet.cpp:477-480 | for every frame, also one holding further magic: when its magic is parted, the run is that of the remaining chunks, which carry the frame without its first byte, on an empty buffer |
| MickLoss.LostFrame | src/robot_hardware/src/chassis_packet.cpp:477-480 | a concrete stream that loses its frame: six zero bytes and the first magic byte, then the rest |
| MickLoss.KeptFrame | src/robot_hardware/src/chassis_packet.cpp:477-480 | a concrete stream cut between the magic bytes that keeps its frame, because earlier noise was cleared before |
| MickLoss.DamagedTrailerLosesOneFrame | src/robot_hardware/src/chassis_packet.cpp:495-499 | a changed trailer byte loses exactly that frame and counts one error, as long as no magic appears between its first byte and the next frame |
| MickRuns.ShortChunksNeverOverflow | src/robot_hardware/src/chassis_packet.cpp:460-466 | chunks that leave 259 bytes of room below the limit can never overflow a drained stream |
| TextStream.FindNewline | src/robot_hardware/src/chassis_packet.cpp:428-441 | the search finds the first newline, and finds nothing exactly when there is none |
| TextStream.ChassisPacketStream.constructor | src/robot_hardware/src/chassis_packet.cpp:415-416 | a new stream is empty, not overflowed, with no invalid lines |
| TextStream.ChassisPacketStream.Append | src/robot_hardware/src/chassis_packet.cpp:418-424 | exceeding the limit empties the buffer and latches the overflow flag; otherwise the bytes are appended |
| TextStream.ChassisPacketStream.DrainPackets | src/robot_hardware/src/chassis_packet.cpp:428-441 | the drain loop terminates and refines the recursive drain |
| TextStream.DrainReadsLines | src/robot_hardware/src/chassis_packet.cpp:428-441 | draining any lines followed by an unfinished one yields the parses of the complete lines in order, counts the non-blank ones that do not parse, and keeps the unfinished one |
| TextStream.DrainAppend | src/robot_hardware/src/chassis_packet.cpp:428-441 | draining a concatenation is draining the first part and then its residual with the second part |
| TextStream.ReceiveAll | src/robot_hardware/src/chassis_packet.cpp:418-441 | appending and draining chunk by chunk on the object follows the run specification, overflowing or not |
| TextStream.WithinTheLimit | src/robot_hardware/src/chassis_packet.cpp:418-424 | a run sets the overflow flag exactly when some append does, and otherwise the limit plays no part |
| TextStream.ChunkingIsInvisible | src/robot_hardware/src/chassis_packet.cpp:418-441 | packets, residual and invalid count depend only on the bytes, not on how they were split |
| Kinematics.RpmAndBack | src/robot_hardware/src/chassis_kinematics.cpp:11-23 | wheel speed and motor rpm conversions are inverse in both directions for a positive diameter |
| Kinematics.RollsItsCircumference | src/robot_hardware/src/chassis_kinematics.cpp:11-16 | in a minute a wheel rolls off its circumference for each revolution; without a positive diameter it stands |
| Kinematics.WheelsFollowTheBody | src/robot_hardware/src/chassis_kinematics.cpp:51-80 | each wheel turns as the rigid body moves over its spot: by the forward speed there, and under mecanum with the leftward speed added or taken off as the rollers slant |
| Kinematics.CommandRoundTrip | src/robot_hardware/src/chassis_kinematics.cpp:51-109 | estimating wheel speeds and then the command gives the command back (with zero lateral part for a differential drive) |
| Kinematics.WheelSpeedsRoundTrip | src/robot_hardware/src/chassis_kinematics.cpp:51-109 | estimating the command and then the wheel speeds gives the wheel speeds back if and only if they are consistent with the drive |
| Kinematics.MotionInTheBodyFrame | src/robot_hardware/src/chassis_kinematics.cpp:38-49 | in the robot's own frame the displacement is the commanded velocity times the non-negative time |
| Kinematics.HeadingAdvances | src/robot_hardware/src/chassis_kinematics.cpp:46-47 | where atan2 undoes sine and cosine, the new heading is the old one turned by the yaw rate times the non-negative time |
| ChassisAdapter.ChassisSystemAdapter.constructor | src/robot_hardware/src/chassis_system_adapter.cpp:10-19 | every field of the initial state of the adapter, and its two empty 4096-byte streams |
| ChassisAdapter.ChassisSystemAdapter.Open | src/robot_hardware/src/chassis_system_adapter.cpp:23-30 | what opening changes, from what the backend answers and whether it is open afterwards; only the mock backend connects at once |
| ChassisAdapter.ChassisSystemAdapter.RefreshOpenState | src/robot_hardware/src/chassis_system_adapter.cpp:279-285 | a closed backend is never connected; nothing else changes |
| ChassisAdapter.ChassisSystemAdapter.SetKinematicsModel | src/robot_hardware/src/chassis_system_adapter.cpp:40-42 | anything but the mecanum names means a differential drive, and nothing but the drive changes |
| ChassisAdapter.ChassisSystemAdapter.Write | src/robot_hardware/src/chassis_system_adapter.cpp:44-77 | only an accepted write to an open backend changes the held command, and then to the normalised one |
| ChassisAdapter.ChassisSystemAdapter.ResetOdometry | src/robot_hardware/src/chassis_system_adapter.cpp:120-124 | only the pose is reset |
| ChassisAdapter.ChassisSystemAdapter.IntegrateMock | src/robot_hardware/src/chassis_system_adapter.cpp:134-149 | the mock moves by the held command over the non-negative period and reports the wheel speeds of that command |
| ChassisAdapter.ChassisSystemAdapter.ApplyPacket | src/robot_hardware/src/chassis_system_adapter.cpp:207-277 | the field-by-field updates of each packet kind refine the packet step |
| ChassisAdapter.ChassisSystemAdapter.ApplyOdometry | src/robot_hardware/src/chassis_system_adapter.cpp:208-245 | odometry: measured speeds give the wheel speeds unless a side reports its own |
| ChassisAdapter.ChassisSystemAdapter.ApplyState | src/robot_hardware/src/chassis_system_adapter.cpp:256-276 | state: the mode overrides the status, absent fields stay |
| ChassisAdapter.LatestPacketWins | src/robot_hardware/src/chassis_system_adapter.cpp:207-277 | after any packets, each field is what the latest packet that carries it says, or as before if none does, and each packet is counted |
| ChassisAdapter.ChassisSystemAdapter.ApplyPackets | src/robot_hardware/src/chassis_system_adapter.cpp:196-203 | packets are applied in order |
| ChassisAdapter.ChassisSystemAdapter.ReadTextPackets | src/robot_hardware/src/chassis_system_adapter.cpp:151-205 | one text read: fault flags for overflow and malformed lines, then the packets; it succeeds exactly when the bytes fit and complete no invalid line |
| ChassisAdapter.ChassisSystemAdapter.ReadMickPackets | src/robot_hardware/src/chassis_system_adapter.cpp:151-205 | one binary read: fault flags for overflow and malformed frames, then the packets; it succeeds exactly when the bytes fit and complete no invalid frame |
| ChassisAdapter.ChassisSystemAdapter.Read | src/robot_hardware/src/chassis_system_adapter.cpp:91-116 | every path of a read: closed backend, mock, no data, text data, binary data, and exactly when it succeeds |
| ChassisAdapter.FaultAfterMickRead | src/robot_hardware/src/chassis_system_adapter.cpp:151-205 | the fault code of a binary read: MALFORMED_PACKET exactly on overflow or a bad frame, else what the last packet reports, else unchanged |
| ChassisAdapter.MockFollowsItsCommand | src/robot_hardware/src/chassis_system_adapter.cpp:134-149 | the mock moves, seen from the robot's own frame, by its command times the period, and reports that command in its speeds and, up to a lateral part under differential drive, in its wheel speeds |
| ChassisAdapter.ReadAll | src/robot_hardware/src/chassis_system_adapter.cpp:91-205 | a series of reads on the object follows the run specification |
| ChassisAdapter.ReadsFollowTheText | src/robot_hardware/src/chassis_system_adapter.cpp:151-277 | over any reads that do not overflow, every field but the fault code is what one pass over the whole text gives |
| ChassisAdapter.ChunkingDoesNotShow | src/robot_hardware/src/chassis_system_adapter.cpp:151-277 | two splittings of the same bytes leave the adapter the same in every field but the fault code |
| ChassisFaults.FaultAfterReads | src/robot_hardware/src/chassis_system_adapter.cpp:151-205 | the fault code after any reads that do not overflow: MALFORMED_PACKET if an error of the text is not masked by a later packet, else what the last packet reports |
| ChassisFaults.FaultCodeExactly | src/robot_hardware/src/chassis_system_adapter.cpp:151-205 | reading in chunks leaves the fault code of reading whole if and only if no later packet masks an error, or the last packet itself reports MALFORMED_PACKET |
| ChassisFaults.ChunkingsAgreeExactly | src/robot_hardware/src/chassis_system_adapter.cpp:151-205 | two splittings of a text leave the same fault code if and only if they mask alike, or the last packet itself reports MALFORMED_PACKET |
| ChassisFaults.FaultCodeShowsChunking | src/robot_hardware/src/chassis_system_adapter.cpp:165-203 | a case where it differs: a bad line and a heartbeat leave MALFORMED_PACKET when read together and no fault when read one by one |
| ChassisDriver.ChassisDriver.constructor | src/robot_hardware/src/chassis_driver_node.cpp:57-154 | a new driver on the mock backend is at the origin and at rest |
| ChassisDriver.ChassisDriver.HandleCommand | src/robot_hardware/src/chassis_driver_node.cpp:156-177 | the held command is the one sent up to the limits, the command clock restarts and the timeout is re-armed |
| ChassisDriver.ChassisDriver.EnforceCommandTimeout | src/robot_hardware/src/chassis_driver_node.cpp:286-314 | an expired command is replaced by a stop, once |
| ChassisDriver.ChassisDriver.ReadChassisSystem | src/robot_hardware/src/chassis_driver_node.cpp:227-263 | the read moves the adapter pose by the held command and reports its wheel speeds |
| ChassisDriver.ChassisDriver.IntegrateWheelOdometry | src/robot_hardware/src/chassis_driver_node.cpp:355-364 | the wheel pose moves by the command estimated from the reported wheel speeds |
| ChassisDriver.ChassisDriver.Tick | src/robot_hardware/src/chassis_driver_node.cpp:210-225 | one tick of the object refines the step specification |
| ChassisDriver.ChassisDriver.SetChassisMode | src/robot_hardware/src/chassis_driver_node.cpp:180-208 | unknown modes change nothing and fail; known ones change both drives |
| ChassisDriver.ModesSelect | src/robot_hardware/src/chassis_driver_node.cpp:182-208 | which mode requests select a mecanum drive, which a differential one, and which none |
| ChassisDriver.ChassisDriver.ResetOdometry | src/robot_hardware/src/chassis_driver_node.cpp:465-471 | both poses are reset together |
| ChassisDriver.PlayEvents | src/robot_hardware/src/chassis_driver_node.cpp:156-225 | any sequence of events on the object follows the run specification |
| ChassisDriver.OneTick | src/robot_hardware/src/chassis_driver_node.cpp:210-225 | after a tick from equal poses the poses are equal if and only if the tick did not integrate a lateral command while driving differentially |
| ChassisDriver.PosesAgreeExactly | src/robot_hardware/src/chassis_driver_node.cpp:355-364 | wheel odometry equals the adapter pose after every step of a run if and only if no tick of the run integrated a lateral command while driving differentially |
| ChassisDriver.PosesAgreeByHistory | src/robot_hardware/src/chassis_driver_node.cpp:156-225 | with non-decreasing time, read off what the callers sent: the poses agree after every step if and only if no tick comes in differential drive with a lateral last command that has not expired |
| ChassisDriver.PosesPart | src/robot_hardware/src/chassis_driver_node.cpp:180-225 | a concrete run that parts them: mecanum, a lateral command, a change to differential drive, one tick |
| ChassisDriver.PosesAgreeInCarefulRuns | src/robot_hardware/src/chassis_driver_node.cpp:180-225 | the poses agree after every step of every run that does not switch to differential drive while a lateral command is held |
| ChassisDriver.HistoryIsReflected | src/robot_hardware/src/chassis_driver_node.cpp:156-177 | in every run with non-decreasing time the state is determined by the last command, its time, and the drive |
| ChassisDriver.TicksIntegrateTheSafeCommand | src/robot_hardware/src/chassis_driver_node.cpp:286-314 | what a tick integrates is the last command as an independent reading of the history defines it: stop if there is none or it has expired |
| ChassisDriver.TicksIntegrateWhatWasSent | src/robot_hardware/src/chassis_driver_node.cpp:156-177 | over every run with non-decreasing time, a tick integrates each component as it was sent, or the limit with its sign if it was sent beyond a positive limit, and no lateral part under differential drive, until the timeout and a whole further millisecond have passed; then, and before any command, a stop |
| ChassisDriver.TicksMoveByElapsedTime | src/robot_hardware/src/chassis_driver_node.cpp:210-218 | over every run, a tick moves the robot in its own frame by the integrated command times the seconds since the last tick, at least one millisecond |
| ChassisDriver.WatchdogIsSafe | src/robot_hardware/src/chassis_driver_node.cpp:279-314 | with a positive timeout no tick integrates a nonzero command older than the timeout in truncated milliseconds, and each component is within its limit |
| Association.StableIsUnique | src/robot_perception/src/target_manager.cpp:226-239 | a candidate set without ties has at most one matching without a blocking pair |
| Association.GreedyIsStable | src/robot_perception/src/target_manager.cpp:200-239 | taking sorted candidates greedily gives a matching without a blocking pair |
| Association.SortingDoesNotMatter | src/robot_perception/src/target_manager.cpp:215-224 | every ascending arrangement of the candidates gives the same matching |
| TargetTracking.Accept | src/robot_perception/src/target_manager.cpp:55-78 | the constructor accepts exactly the finite configurations in their ranges, with a retirement of 0 read as twice the lost frames |
| TargetTracking.TargetManager.constructor | src/robot_perception/src/target_manager.cpp:55-78 | a new manager is empty |
| TargetTracking.TargetManager.Create | src/robot_perception/src/target_manager.cpp:55-78 | a manager is made exactly when the configuration is accepted |
| TargetTracking.TargetManager.FilterObservations | src/robot_perception/src/target_manager.cpp:192-198 | only valid observations of this timestamp are kept, in order |
| TargetAssociation.UsableAre | src/robot_perception/src/target_manager.cpp:80-85 | which observations an update works on: named, with depth and finite position, dated from 0 to the time of the update, confidence in [0, 1] |
| TargetTracking.TargetManager.CollectCandidates | src/robot_perception/src/target_manager.cpp:200-214 | all pairs of the same class within the distance, in loop order |
| TargetTracking.FilterContracts | src/robot_perception/src/target_manager.cpp:30-37 | filtering leaves (1 - alpha) of the distance to the observation and moves by alpha of it |
| TargetTracking.TargetManager.UpdateMatchedTarget | src/robot_perception/src/target_manager.cpp:103-132 | the field-by-field update with its two early returns refines the step of a matched target, and touches no other |
| TargetTracking.TargetManager.MatchTargets | src/robot_perception/src/target_manager.cpp:226-239 | the loop with its boolean vectors computes the greedy matching and updates exactly the matched targets |
| TargetTracking.TargetManager.AgeUnmatchedTargets | src/robot_perception/src/target_manager.cpp:150-169 | exactly the unmatched targets age |
| TargetTracking.TargetManager.CreateTarget | src/robot_perception/src/target_manager.cpp:134-148 | a target gets the next id unless ids are exhausted, which throws and changes nothing |
| TargetTracking.TargetManager.CreateTargets | src/robot_perception/src/target_manager.cpp:243-262 | one target for each observation neither taken nor duplicate, in order, up to id exhaustion |
| TargetTracking.TargetManager.RemoveExpiredTargets | src/robot_perception/src/target_manager.cpp:171-182 | exactly the retired targets go |
| TargetTracking.TargetManager.Update | src/robot_perception/src/target_manager.cpp:184-266 | the whole update refines the step specification, including refused timestamps and id exhaustion |
| TargetTracking.TargetManager.MarkProcessed | src/robot_perception/src/target_manager.cpp:268-286 | marks exactly when the id is known, the state allows it and time does not run backwards; changes only that target |
| TargetAssociation.AssociationIsTheStableOne | src/robot_perception/src/target_manager.cpp:200-239 | a set of pairs is the result of the update if and only if it is a matching of same-class pairs within the distance without a blocking pair |
| TargetAssociation.NoPairIsPassedOver | src/robot_perception/src/target_manager.cpp:200-239 | every same-class pair within the distance is associated, or loses to an associated pair with its target or its observation that is nearer or, as near, comes first by target and then observation; only such pairs are ever associated |
| TargetAssociation.EachObservationOnce | src/robot_perception/src/target_manager.cpp:243-262 | each usable observation is taken by one target, suppressed as a duplicate, or starts one target, and never two of these |
| TargetAssociation.LoneObservationStarts | src/robot_perception/src/target_manager.cpp:243-262 | an observation that no target takes and that is farther than the matching distance from every other of its class starts a target |
| TargetAssociation.StartersAreApart | src/robot_perception/src/target_manager.cpp:243-262 | same-class targets started in one update are more than the matching distance apart |
| TargetAssociation.NewTargetsAre | src/robot_perception/src/target_manager.cpp:134-148 | the k-th new target has the k-th new id and comes from the k-th starting observation |
| TargetLifecycle.ProcessedArmIsUnreachable | src/robot_perception/src/target_manager.cpp:171-182 | after aging, a target is retired exactly when it is LOST beyond the retirement count: the PROCESSED arm never fires |
| TargetLifecycle.Evolution | src/robot_perception/src/target_manager.cpp:184-266 | an accepted update maps each known id to its own evolution or its removal, whatever the other targets do |
| TargetLifecycle.NewcomersAre | src/robot_perception/src/target_manager.cpp:243-262 | the targets an accepted update adds are exactly one for each starting observation, in order, with the next ids, as the observation shows it |
| TargetLifecycle.NewTargetStarts | src/robot_perception/src/target_manager.cpp:134-148 | a new target shows its observation, has one hit and no miss, and is CONFIRMED at once exactly when one hit is enough |
| TargetLifecycle.IdsRunOutExactly | src/robot_perception/src/target_manager.cpp:96-101 | an accepted update throws if and only if it starts more targets than 32-bit ids are left |
| TargetLifecycle.NewcomersAreApart | src/robot_perception/src/target_manager.cpp:243-262 | two targets of one class that an update adds are more than the matching distance apart |
| TargetLifecycle.MarkIs | src/robot_perception/src/target_manager.cpp:268-286 | marking keeps the invariant and changes at most the named target |
| TargetLifecycle.ReachableStatesAreSound | src/robot_perception/src/target_manager.cpp:96-182 | in every reachable state ids ascend below the next id, CONFIRMED has enough hits, TENTATIVE and CONFIRMED have few misses, LOST has misses between the two limits |
| TargetLifecycle.AcceptedExactlyInOrder | src/robot_perception/src/target_manager.cpp:186-190 | in every run an update is accepted if and only if its time is neither negative nor before that of an earlier accepted one; a refused one changes nothing |
| TargetLifecycle.IdsAreNotReused | src/robot_perception/src/target_manager.cpp:96-101 | an id that is gone never comes back |
| TargetLifecycle.EveryIdWasGivenOut | src/robot_perception/src/target_manager.cpp:96-101 | over every run ids are given out from 1 on without gaps: each id below the next was given to a target by some step |
| TargetLifecycle.ConfirmedNeverTurnsTentative | src/robot_perception/src/target_manager.cpp:103-169 | no step takes a CONFIRMED target to TENTATIVE |
| TargetLifecycle.ConfirmedExactlyOnTime | src/robot_perception/src/target_manager.cpp:124-131 | over every run: a target that is not PROCESSED, with h hits, matched by each of the next n > 0 accepted updates and not marked, is there with h + n hits and no miss, CONFIRMED if and only if h + n is enough and TENTATIVE otherwise |
| TargetLifecycle.NewcomersConfirmedOnTime | src/robot_perception/src/target_manager.cpp:134-148 | over every run: a target that an update adds and each of the next n accepted updates matches is CONFIRMED if and only if 1 + n is enough |
| TargetLifecycle.ProcessedCountsAgain | src/robot_perception/src/target_manager.cpp:114-122 | a PROCESSED target that is matched becomes TENTATIVE with one hit and its mark erased if and only if its cooldown has run out; before that it keeps state, hits and mark |
| TargetLifecycle.ConfirmedAgainOnTime | src/robot_perception/src/target_manager.cpp:117-131 | over every run: after its reactivation a target matched by n further accepted updates has 1 + n hits and is CONFIRMED if and only if n > 0 and that is enough |
| TargetLifecycle.SightingRefreshes | src/robot_perception/src/target_manager.cpp:103-112 | a match takes over position, confidence, time and depth of the observation, leaves the share (1 - alpha) of the distance to it in the filtered position, and keeps identity and first sight |
| TargetLifecycle.RetiredExactlyOnTime | src/robot_perception/src/target_manager.cpp:150-182 | a target that is not PROCESSED, with m misses, left alone, is present after n accepted updates if and only if m + n is at most the retirement count; it is LOST exactly from the lost frames on, and nothing else about it changes |
| TargetLifecycle.ProcessedIsHeld | src/robot_perception/src/target_manager.cpp:87-94 | a PROCESSED target keeps its state, time and presence until its cooldown has elapsed |
| InspectionRuns.NonEmpty | src/robot_perception/src/inspection_event_policy.cpp:10-21 | empty class names are dropped from the allowed list and nothing else is |
| InspectionRuns.AcceptPolicy | src/robot_perception/src/inspection_event_policy.cpp:10-21 | a configuration is accepted exactly when its confidence threshold is finite and in [0, 1] |
| InspectionRuns.InspectionEventPolicy.Create | src/robot_perception/src/inspection_event_policy.cpp:10-21 | a policy is made exactly when the configuration is accepted, and has raised nothing |
| InspectionRuns.InspectionEventPolicy.constructor | src/robot_perception/src/inspection_event_policy.cpp:10-21 | a new policy has raised nothing |
| InspectionRuns.InspectionEventPolicy.ShouldEmit | src/robot_perception/src/inspection_event_policy.cpp:23-43 | a CONFIRMED eligible target is raised unless already raised; a target seen TENTATIVE is re-armed |
| InspectionRuns.PublishManagedTargets | src/robot_perception/src/geometry_validation_node.cpp:502-525 | publishing the targets in order follows the specification of the policy |
| InspectionRuns.HandleDetections | src/robot_perception/src/geometry_validation_node.cpp:353-370 | an update followed by publishing is one step of the node |
| InspectionRuns.HandlePerceptionEvent | src/robot_perception/src/geometry_validation_node.cpp:701-725 | a completion marks the target at the later of its stamp and the last observation |
| InspectionRuns.OneInspectionPerActivation | src/robot_perception/src/geometry_validation_node.cpp:502-525 | between two inspections raised for one id there is a successful completion of that id followed by an accepted update at least the cooldown later |
| InspectionRuns.NoCompletionNoRepeat | src/robot_perception/src/inspection_event_policy.cpp:23-43 | without a completion event for the id it is never raised again, however often it is lost and found |
| InspectionRuns.EligibleTargetsAreRaised | src/robot_perception/src/inspection_event_policy.cpp:23-43 | an update raises exactly the actionable targets not yet raised, each once |
| InspectionRuns.HeldBackExactly | src/robot_perception/src/inspection_event_policy.cpp:23-42 | over every run the policy holds an id back if and only if it has been raised and its target has not been shown TENTATIVE since |
| InspectionRuns.RaisedExactly | src/robot_perception/src/inspection_event_policy.cpp:23-42 | over every run detections raise an id if and only if inspections are enabled, its target is CONFIRMED with a valid depth, of an allowed non-empty class and sure enough, and it has not been raised since its target was last shown TENTATIVE |
| InspectionRuns.CompletionsMarkExactly | src/robot_perception/src/target_manager.cpp:268-286 | over every run a completion marks a known target, even a lost one and even if stamped before the last sighting, if and only if the later of stamp and last sighting is not negative, and with that time |
| InspectionRuns.PublishedOnce | src/robot_perception/src/geometry_validation_node.cpp:502-525 | one publication raises no id twice |
| SafetyPolicy.AcceptSafety | src/robot_perception/src/perception_safety_policy.cpp:69-98 | the constructor accepts exactly the finite configurations in their ranges |
| SafetyPolicy.PerceptionSafetyPolicy.constructor | src/robot_perception/src/perception_safety_policy.cpp:69-98 | a new policy is CLEAR with no pending observations |
| SafetyPolicy.PerceptionSafetyPolicy.FindDangerZone | src/robot_perception/src/perception_safety_policy.cpp:146-155 | the loop finds the first enabled danger zone around the point |
| SafetyPolicy.PerceptionSafetyPolicy.AssessTarget | src/robot_perception/src/perception_safety_policy.cpp:137-172 | the assessment of one person with the thresholds of the current level |
| SafetyPolicy.PerceptionSafetyPolicy.ClassifyInput | src/robot_perception/src/perception_safety_policy.cpp:100-180 | the loop with its skips computes the fold over the considered persons and whether any was malformed |
| SafetyPolicy.PerceptionSafetyPolicy.Evaluate | src/robot_perception/src/perception_safety_policy.cpp:182-214 | the debounced evaluation refines the step specification |
| SafetyRuns.SelectChooses | src/robot_perception/src/perception_safety_policy.cpp:24-39 | the selected decision is that of a considered person than whom no considered person is more restrictive, and there is none only if nobody is considered |
| SafetyDecisions.ConsideredArePresent | src/robot_perception/src/perception_safety_policy.cpp:119-134 | who counts: a CONFIRMED or PROCESSED person seen in the last update, readable, and not longer ago than the maximum age |
| SafetyDecisions.AssessedAs | src/robot_perception/src/perception_safety_policy.cpp:136-172 | what one person calls for at each level, by the configured distances, the hystereses and the ground distance written out, and whom and which zone the decision names |
| SafetyDecisions.DecisionNamesTheGravest | src/robot_perception/src/perception_safety_policy.cpp:24-39 | the decision is about the person with the gravest reason (danger zone, too close, near, none), the nearest of these, the lowest id of those |
| SafetyDecisions.LevelCalledExactly | src/robot_perception/src/perception_safety_policy.cpp:156-172 | the level called for at CLEAR, SPEED_LIMITED and STOP: STOP if and only if somebody present is in a danger zone or closer than the stop distance (at STOP plus its hysteresis), else SPEED_LIMITED if and only if somebody is not beyond the slow distance (plus its hysteresis unless at CLEAR) |
| SafetyDecisions.PersonTooCloseStops | src/robot_perception/src/perception_safety_policy.cpp:146-172 | whatever the policy decided before, every readable evaluation with a person in a danger zone or closer than the stop distance ends at STOP |
| SafetyDecisions.PersonNearSlows | src/robot_perception/src/perception_safety_policy.cpp:168-171 | no readable evaluation with a person at most the slow distance away ends at CLEAR |
| SafetyDecisions.EvaluationNamesTheGravest | src/robot_perception/src/perception_safety_policy.cpp:182-214 | an evaluation ends with the decision it started from or with one about the person this input is decided by, and with the latter whenever it is used and calls for no less |
| SafetyDecisions.InputIsUsedExactly | src/robot_perception/src/perception_safety_policy.cpp:190-195 | an input is used if and only if the policy is off, or it is readable and no person in it is unreadable unless the others already call for a higher level |
| SafetyDecisions.CloseIsTooClose | src/robot_perception/src/perception_safety_policy.cpp:165-167 | a concrete case: a person 0.3 m away stops a policy at CLEAR whose stop distance is 0.8 m |
| SafetyRuns.TargetOrderDoesNotMatter | src/robot_perception/src/perception_safety_policy.cpp:100-214 | with distinct ids the outcome of an evaluation is the same for every order of the targets |
| SafetyRuns.LevelNeverBelowInput | src/robot_perception/src/perception_safety_policy.cpp:182-214 | a valid evaluation ends at least at its input's level, rises at once, and an invalid one changes nothing but the validity flag |
| SafetyRuns.LessThanStopMeansClear | src/robot_perception/src/perception_safety_policy.cpp:100-180 | at STOP an evaluation is valid and calls for less if and only if no person is malformed and each considered one is beyond the stop distance plus hysteresis and outside every danger zone |
| SafetyRuns.DangerZonesStopExactly | src/robot_perception/src/perception_safety_policy.cpp:146-155 | a valid zone stops the robot where it should if and only if it is disabled, not a danger zone, or has its kind spelt in lower case |
| SafetyRuns.CapitalisedDangerZone | src/robot_navigation/src/zone_catalog.cpp:275-285 | a concrete zone of kind Danger_Zone that validation accepts and at which nobody is ever stopped |
| SafetyRuns.RunPolicy | src/robot_perception/src/perception_safety_policy.cpp:182-214 | any inputs on the object give a run |
| SafetyRuns.CounterHasWindow | src/robot_perception/src/perception_safety_policy.cpp:196-212 | in every run the counter is the number of valid, less restrictive evaluations of a window held at the current level |
| SafetyRuns.LeavingStop | src/robot_perception/src/perception_safety_policy.cpp:182-214 | the level leaves STOP only after exactly the configured number of valid evaluations, all held at STOP, in each of which everyone was clear of the stop conditions |
| SafetyRuns.ClearsAfterEnoughObservations | src/robot_perception/src/perception_safety_policy.cpp:182-214 | after the configured number of valid evaluations classified at or below a level, the policy is at or below it |
| Zones.ComputeContainsPoint | src/robot_navigation/src/zone_catalog.cpp:223-257 | the toggling index loop, with its early return on an edge, refines the recursive scan |
| Zones.ContainsPointIsEvenOdd | src/robot_navigation/src/zone_catalog.cpp:223-257 | a point is contained exactly when it is within tolerance of an edge or crosses an odd number of edges |
| Zones.InsideIgnoresRotation | src/robot_navigation/src/zone_catalog.cpp:223-257 | the answer is the same from whichever vertex the list starts |
| Zones.InsideIgnoresOrientation | src/robot_navigation/src/zone_catalog.cpp:223-257 | the answer is the same for both orientations |
| Zones.RectangleZoneContains | src/robot_navigation/src/zone_catalog.cpp:223-257 | for every zone listing an axis-aligned rectangle, from any corner in either orientation, a point is contained if and only if it lies in the closed rectangle grown by the tolerance |
| ConvexZones.CrossesBySide | src/robot_navigation/src/zone_catalog.cpp:250-251 | an edge, slanted or not, is crossed exactly when it passes the height of the point with the point on its left on the way up, or on its right on the way down |
| ConvexZones.ConvexZoneContains | src/robot_navigation/src/zone_catalog.cpp:223-257 | for every zone listing a strictly convex polygon, counterclockwise or clockwise, a point is contained if and only if it is within tolerance of an edge or strictly on the inner side of every edge, by the signs of the half-plane products |
| ConvexZones.TriangleZoneContains | src/robot_navigation/src/zone_catalog.cpp:223-257 | the same for every triangle that is not flat, in either orientation, side by side |
| ConvexZones.SlantedZone | src/robot_navigation/src/zone_catalog.cpp:250-251 | a concrete triangle with a slanted side contains a point below that side and not one above it |
| ConvexZones.OutlineIsContained | src/robot_navigation/src/zone_catalog.cpp:241-249 | every polygon contains the whole of its outline |
| ConvexZones.OnEdgeMeansNear | src/robot_navigation/src/zone_catalog.cpp:241-249 | a point counted as on an edge is within the tolerance of its line, or of the tolerance over the length for an edge shorter than 1 |
| Zones.BrokenZoneContains | src/robot_navigation/src/zone_catalog.cpp:237-240 | a zone with a coordinate that is not finite contains exactly the points within tolerance of an edge before the first broken one |
| ZoneMasks.ValidZonesArePolygons | src/robot_navigation/src/zone_catalog.cpp:259-290 | a valid zone has at least three finite vertices and a supported kind, and only speed-limit zones carry a positive limit |
| ZoneMasks.ZonesLoadExactly | src/robot_navigation/src/zone_catalog.cpp:259-290 | a zone is valid if and only if it is named, mapped and framed, outlines a polygon, is of a supported kind, and has a positive limit if it is a speed-limit zone |
| ZoneMasks.KindsIgnoreCase | src/robot_navigation/src/zone_catalog.cpp:281-285 | the four kinds are recognised in every mixture of upper and lower case |
| ZoneMasks.ForMap | src/robot_navigation/src/zone_catalog.cpp:94-103 | exactly the enabled zones of the map are kept, in order |
| ZoneMasks.ComputeEvaluatePoint | src/robot_navigation/src/zone_catalog.cpp:105-135 | the accumulating loop refines the fold |
| ZoneMasks.EvaluatePointMeaning | src/robot_navigation/src/zone_catalog.cpp:105-135 | a point is allowed exactly when no matching keepout zone contains it, and the limit is the default capped by the least matching limit |
| ZoneMasks.MatchedAre | src/robot_navigation/src/zone_catalog.cpp:105-135 | the zones reported are exactly the enabled zones of the map around the point, in order |
| ZoneMasks.RasteriseCell | src/robot_navigation/src/zone_filter_masks.cpp:281-298 | one cell: whether a keepout zone contains its centre and the least limit there |
| ZoneMasks.BuildZoneFilterMaskGrid | src/robot_navigation/src/zone_filter_masks.cpp:266-314 | a grid is built exactly for positive sizes and resolution; every cell holds its value at its own index, and both counters are the numbers of nonzero cells |
| ZoneMasks.FillCell | src/robot_navigation/src/zone_filter_masks.cpp:299-309 | writing one cell and its counters keeps everything filled so far |
| ZoneMasks.MasksAgreeWithEvaluatePoint | src/robot_navigation/src/zone_filter_masks.cpp:266-314 | in every cell the keepout mask is 100 exactly when the point query forbids the cell centre, and the speed mask quantises the very limit that caps the point query |
| ZoneMasks.MasksIgnoreZoneOrder | src/robot_navigation/src/zone_filter_masks.cpp:266-314 | the masks do not depend on the order of the zones |
| ZoneMasks.EachPointHasItsCell | src/robot_navigation/src/zone_filter_masks.cpp:118-125 | every point of the map lies in the square of exactly one cell, and no other point in that of any |
| ZoneMasks.CellSides | src/robot_navigation/src/zone_filter_masks.cpp:118-125 | columns run to the right from the left side of the map and rows downward from its top, each one resolution further |
| ZoneMasks.MaskValueExactly | src/robot_navigation/src/zone_filter_masks.cpp:127-132 | a limit gets the hundredth meant, between 1 and 100, if and only if its low 32 bits survive the narrowing |
| ZoneMasks.QuantisedMeaning | src/robot_navigation/src/zone_filter_masks.cpp:127-132 | the value meant is within half a hundredth of the limit, and saturates at 1 and 100 |
| ZoneMasks.MonotoneExactly | src/robot_navigation/src/zone_filter_masks.cpp:127-132 | a limit is masked no lower than all smaller ones if and only if it survives the narrowing |
| ZoneMasks.MasksOrderedExactly | src/robot_navigation/src/zone_filter_masks.cpp:127-132 | which of two limits gets the higher mask value, in terms of what the cast leaves of their hundredths |
| ZoneMasks.QuantisedMinimum | src/robot_navigation/src/zone_filter_masks.cpp:290-303 | the quantised minimum of two limits is the minimum of the quantised ones if and only if what the cast leaves of their hundredths keeps order |
| ZoneMasks.SurvivingKeepsOrder | src/robot_navigation/src/zone_filter_masks.cpp:127-132 | a limit that survives the narrowing keeps order with every smaller one |
| ZoneMasks.MaskIsLeastQuantisedLimit | src/robot_navigation/src/zone_filter_masks.cpp:290-308 | a speed mask is the value of a limit that applies there, and the least such value if and only if the least limit keeps order with the others |
| ZoneMasks.HugeLimitsWrap | src/robot_navigation/src/zone_filter_masks.cpp:127-132 | a concrete limit that wraps: 42949672.97 m/s is masked as 0.01 m/s |
| DepthProjector.ReadBits | src/robot_perception/src/depth_projector.cpp:24-43 | the bits read are those of the message byte order on a host of either byte order |
| DepthProjector.BytesOfWord | src/robot_perception/src/depth_projector.cpp:34-43 | where each byte goes: the first is the most significant in big-endian order and the least in little-endian order |
| DepthProjector.PixelInsideData | src/robot_perception/src/depth_projector.cpp:120-157 | each pixel's four bytes lie inside the image data |
| DepthProjector.PixelsReadTheirOwnBytes | src/robot_perception/src/depth_projector.cpp:153-157 | writing the four bytes of one pixel changes the reading of that pixel, to the word they are in the order of the message, and of no other |
| DepthProjector.RoiOf | src/robot_perception/src/depth_projector.cpp:134-143 | the region of interest is inside the image |
| DepthProjector.RoiIsTheScaledBox | src/robot_perception/src/depth_projector.cpp:134-143 | the region is exactly the image pixels that in both axes are within half a pixel of the box centre or within half of the box side times the ratio |
| DepthProjector.RoiEmptyExactly | src/robot_perception/src/depth_projector.cpp:144-147 | an accepted box is refused for an empty region if and only if its centre lies beyond the last column or row by more than half a side |
| DepthProjector.EmptyAtTheBorder | src/robot_perception/src/depth_projector.cpp:144-147 | a concrete accepted box whose region is empty |
| DepthProjector.NthElement | src/robot_perception/src/depth_projector.cpp:48 | stands for std::nth_element: a permutation partitioned around its n-th element |
| DepthProjector.MaxElement | src/robot_perception/src/depth_projector.cpp:53 | stands for std::max_element over a prefix |
| DepthProjector.Median | src/robot_perception/src/depth_projector.cpp:45-55 | reordering in place, the result is the element of middle rank, or the mean of the two middle ones, of the samples as they were |
| DepthProjector.MedianIsUnique | src/robot_perception/src/depth_projector.cpp:45-55 | samples have only one median, so the result does not depend on how nth_element reorders |
| DepthProjector.MedianFollowsMajority | src/robot_perception/src/depth_projector.cpp:45-55 | an interval holding more than half of the samples holds their median, for odd and even counts |
| DepthProjector.SampleDepth | src/robot_perception/src/depth_projector.cpp:109-172 | the refusals in order, the sample count, too few samples, or a median of the accepted depths of the region |
| DepthProjector.SampleStatusExactly | src/robot_perception/src/depth_projector.cpp:109-171 | when sampling is refused for configuration, encoding, image or box, a box also when no pixel lies in it, when it is short of samples and when it is valid, in terms of the fields and of the number of pixels with an accepted depth |
| DepthProjector.DepthFollowsMajority | src/robot_perception/src/depth_projector.cpp:149-171 | a valid depth is within the configured limits and within every interval holding the readings of more than half of the accepted pixels; the sample count is the number of those pixels |
| DepthProjector.ParseIntrinsics | src/robot_perception/src/depth_projector.cpp:86-107 | intrinsics are accepted if and only if the four entries of the camera matrix are finite, the focal lengths positive and the principal point inside the image, and they are those entries |
| DepthProjector.Project | src/robot_perception/src/depth_projector.cpp:174-199 | the projection is that of a sample of the image |
| DepthProjector.ProjectionSucceedsExactly | src/robot_perception/src/depth_projector.cpp:177-188 | a projection succeeds if and only if the sample did and the camera matrix is usable and made for images of this size; otherwise the point is cleared |
| DepthProjector.ProjectionIsSeenAtTheCentre | src/robot_perception/src/depth_projector.cpp:190-192 | a valid projection lies in front of the camera at the sampled depth, and the pinhole camera sees it at the centre of the box |
| MissionQueue.MissionRunnerQueue.constructor | src/robot_tasks/src/mission_runner_node.cpp:5450-5490 | a new queue is empty with nothing paused |
| MissionQueue.MissionRunnerQueue.SortMissionQueue | src/robot_tasks/src/mission_queue.cpp:14-21 | the queue becomes its stable sort |
| MissionQueue.MissionRunnerQueue.AdmitQueuedMission | src/robot_tasks/src/mission_runner_node.cpp:4732-4758 | an admitted mission gets the next sequence number and the queue is sorted |
| MissionQueue.MissionRunnerQueue.RemoveIf | src/robot_tasks/src/mission_queue.cpp:104-120 | remove_if and erase keep exactly the others in order; the ids and the count are those removed |
| MissionQueue.MissionRunnerQueue.RemoveQueuedMissionById | src/robot_tasks/src/mission_queue.cpp:29-38 | exactly the missions with the id go, and their number is returned |
| MissionQueue.MissionRunnerQueue.RemoveQueuedWorkflowMissions | src/robot_tasks/src/mission_queue.cpp:104-120 | exactly the missions of the workflow order go, and their ids are listed |
| MissionQueue.MissionRunnerQueue.RemoveQueuedStationOrderBatchMissions | src/robot_tasks/src/mission_queue.cpp:122-138 | exactly the missions the batch id reaches go, and their ids are listed |
| MissionQueue.MissionRunnerQueue.ReprioritizeQueuedMission | src/robot_tasks/src/mission_queue.cpp:40-49 | the first mission with the id gets the priority; the result says whether there was one |
| MissionQueue.MissionRunnerQueue.ReprioritizeQueuedMissionBatch | src/robot_tasks/src/mission_queue.cpp:140-155 | the requests are applied in order up to the shorter list; the ids returned are those queued |
| MissionQueue.MissionRunnerQueue.PlanQueuedMissionReprioritize | src/robot_tasks/src/mission_queue.cpp:350-369 | sorted if the mission is queued, untouched otherwise |
| MissionQueue.MissionRunnerQueue.PlanQueuedMissionBatchReprioritize | src/robot_tasks/src/mission_queue.cpp:371-392 | a size mismatch changes nothing; success means every id was queued |
| MissionQueue.MissionRunnerQueue.PausedWorkflowForMission | src/robot_tasks/src/mission_queue.cpp:83-91 | some paused order the mission belongs to, and none only if there is none |
| MissionQueue.FirstRunnable | src/robot_tasks/src/mission_queue.cpp:157-166 | the position found is the first that is not paused, and there is none only if all are paused |
| MissionQueue.MissionRunnerQueue.FindNextRunnableMissionIndex | src/robot_tasks/src/mission_queue.cpp:157-166 | the loop finds the position of the first mission that is not paused |
| MissionQueue.MissionRunnerQueue.StartNextQueuedMission | src/robot_tasks/src/mission_queue.cpp:168-192 | empty queue, all paused, or the first runnable mission taken out and the rest kept |
| MissionOrder.SortPermutes | src/robot_tasks/src/mission_queue.cpp:14-21 | sorting loses and invents nothing |
| MissionOrder.StableSortIsUnique | src/robot_tasks/src/mission_queue.cpp:14-21 | a queue is the result of the sort if and only if it is in (priority descending, sequence ascending) order and keeps ties in their order |
| MissionOrder.SortDependsOnlyOnTheMissions | src/robot_tasks/src/mission_queue.cpp:14-21 | with distinct sequence numbers the sorted queue depends only on which missions are queued |
| MissionOrder.FilterOfSorted | src/robot_tasks/src/mission_queue.cpp:14-21 | choosing missions and sorting commute |
| MissionOrder.DispatchDeliversTheRunnable | src/robot_tasks/src/mission_queue.cpp:157-192 | repeated dispatch delivers exactly the runnable missions in queue order and leaves exactly the paused ones |
| MissionOrder.DispatchOfSortedQueue | src/robot_tasks/src/mission_queue.cpp:157-192 | dispatching a sorted queue delivers the runnable missions by priority and then sequence, and leaves the paused ones in that order |
| MissionBatch.PlanStationOrderBatchSubmit | src/robot_tasks/src/mission_queue.cpp:290-332 | the plan: rejected batches, one item per order, and where it stops |
| MissionBatch.PlanIsUnique | src/robot_tasks/src/mission_queue.cpp:290-332 | the request determines the plan |
| MissionBatch.StartNeedsTheFirstOrder | src/robot_tasks/src/mission_queue.cpp:326-328 | the batch asks for an immediate start, or for preemption, if and only if the request does and its first order is not rejected |
| MissionBatch.LostStart | src/robot_tasks/src/mission_queue.cpp:311-328 | a concrete request whose empty first order loses the start |
| MissionBatch.BatchDispatchesInOrder | src/robot_tasks/src/mission_queue.cpp:326 | accepted items of a batch, admitted at their planned priorities, are dispatched in batch order whatever else is queued or paused, and each runnable one is dispatched |
| MissionBatch.BatchMembershipExactly | src/robot_tasks/src/mission_queue.cpp:77-81 | which batch ids reach the mission of an order: its own, and those cut out around a marker inside the ids |
| MissionBatch.WorkflowMembershipExactly | src/robot_tasks/src/mission_queue.cpp:67-75 | a mission of any of the three families belongs to its own order, and to another if and only if that order id followed by "_step_" is also a beginning of the rest of its id |
| MissionBatch.BatchCancelIsExact | src/robot_tasks/src/mission_queue.cpp:122-138 | cancelling reaches a batch's mission through its own id only, if and only if no '_order_' occurs in the batch id followed by '_' nor in '_' followed by the order id |
| MissionBatch.CancelReachesAnotherBatch | src/robot_tasks/src/mission_queue.cpp:77-81 | a concrete case: batch "a" reaches the missions of batch "a_order_b" |
| MissionRuns.Handle | src/robot_tasks/src/mission_runner_node.cpp:4732-4803 | each event on the object refines its step specification |
| MissionRuns.Play | src/robot_tasks/src/mission_runner_node.cpp:4732-4803 | any events on a new object give a run |
| MissionRuns.StepConserves | src/robot_tasks/src/mission_queue.cpp:29-192 | what a step dispatches, cancels and leaves queued is what was queued plus what it issued |
| MissionRuns.NoMissionIsLostOrDuplicated | src/robot_tasks/src/mission_queue.cpp:29-192 | in every run the sequence numbers issued so far, each once, are those of the queued, the dispatched and the cancelled missions |
| MissionRuns.NothingIsDispatchedTwice | src/robot_tasks/src/mission_queue.cpp:168-192 | no sequence number is dispatched twice, and a dispatched one is neither queued nor cancelled |
| MissionRuns.CancelledAreGone | src/robot_tasks/src/mission_queue.cpp:29-138 | cancelling by id, workflow order or batch leaves exactly the missions that were not meant |
| MissionRuns.DispatchReports | src/robot_tasks/src/mission_queue.cpp:168-192 | a dispatch reports a mission if and only if one is runnable, else whether the queue was empty or all of it paused, and then leaves it as it was |
| MissionRuns.RequestIsMet | src/robot_tasks/src/mission_queue.cpp:40-49 | a single request gives the first mission with the id exactly the priority asked for, and changes nothing else |
| MissionRuns.RequestsAreMet | src/robot_tasks/src/mission_queue.cpp:140-155 | after a batch of requests the queue holds every mission it held, with the priority last asked for its id if it is the first with that id and unchanged otherwise |
| MissionRuns.ReachableQueuesAreInOrder | src/robot_tasks/src/mission_queue.cpp:14-21 | every reachable queue is in order with distinct sequence numbers |
| MissionRuns.QueuesRunByPriorityThenAge | src/robot_tasks/src/mission_queue.cpp:14-21 | every reachable queue runs from high priority to low, and within one priority from the mission admitted first on |
| MissionRuns.DispatchTakesTheFirst | src/robot_tasks/src/mission_queue.cpp:157-192 | a dispatch in a run takes a runnable mission that comes before every other runnable one |
| MissionRuns.NoOvertaking | src/robot_tasks/src/mission_queue.cpp:157-192 | a queued mission that is neither cancelled nor reprioritized, and is not paused when a later one is dispatched, has been dispatched before it |
| MissionRuns.BatchOrderHoldsOverRuns | src/robot_tasks/src/mission_queue.cpp:290-332 | the order of a batch holds over whole runs with admissions, pauses and cancellations of others in between |

## Left out

- Floating-point rounding, NaN arithmetic and overflow to infinity: arithmetic is over reals; finiteness is a flag where the code tests it.
- Trigonometry: parameters, so nothing is said about the accuracy of the integrated poses.
- Parsing and formatting one text line, and with them the stream fail state on optional fields: the line parser is a total function that is a parameter.
- Error strings, state messages, logging, markers, latency statistics and publishers: output only.
- Serial and UDP backends, heartbeats, closing and reconnecting in the driver: the driver is modelled on the mock backend, whose reads and writes succeed.
- Wrap-around of counters in `std::size_t` and `std::uint64_t` (packet sequence, invalid counts, mission sequence numbers) and of products such as frame limits: they are unbounded here. Target ids are bounded, and exhausting them throws as in the source.
- Undefined casts: image or box sizes beyond `int`, `std::lround` beyond `long`, the product of the map's width and height beyond `int`, and a batch priority below the smallest `int`.
- A run continues only past updates that do not throw: exhausting target ids ends the process.
- Corruption of a frame's length byte, and of two bytes at once: the parser resynchronises one byte later, and what it then finds depends on the payload; `MickStream.DrainIsSound` still holds.
- MickLoss.DamagedTrailerLosesOneFrame: for bytes drained together; how later chunks may cut them is left to `MickRuns.SegmentsDelivered` for the frames that follow.
- MickLoss.ChunksLoseFrameExactly: for frames without a second magic pair; with one, the remainder can hold another frame, and `MickLoss.PartedFrameLeavesItsRest` says what then comes out.
- ChassisAdapter.ChassisSystemAdapter.Open: the mock backend is taken to open whenever asked.
- ConvexZones.ConvexZoneContains: for strictly convex outlines; of any other there is the even-odd rule (`Zones.ContainsPointIsEvenOdd`) with the side test of each edge (`ConvexZones.CrossesBySide`).
- Loading, sorting and writing zone catalogues, map files and mask images: file formats.
- std::sort, std::stable_sort, std::nth_element and std::max_element: stand-ins with the contracts of the C++ standard; the results are proved independent of the stand-in (`Association.SortingDoesNotMatter`, `MissionOrder.StableSortIsUnique`, `DepthProjector.MedianIsUnique`).
- The interpretation of a 32-bit float pattern: a parameter from bit patterns to doubles.
- The rest of a mission profile, submission gates, preflight checks, route locks, recovery and docking decisions: they decide whether a mission is admitted, not where it stands in the queue.
- Which paused order `PausedWorkflowForMission` names when several apply: the set is unordered.
- Facility, dock and station reservations: their cross-map agreement does not hold in the source.
- Behaviour-tree wrappers, service plumbing, Python gateways, detectors and simulation: foreign code or input and output.
