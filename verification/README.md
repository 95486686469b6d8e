# Modbus-to-BACnet gateway: verified model

The firmware polls a Modbus TCP device, qualifies every sample, publishes the samples over BACnet and keeps
an error history that survives crashes. This project models the parts of it that decide something, and proves
what they promise for all inputs, all replies of the peer, all interleavings and all points at which the power
can fail.

An object that the firmware changes in place is a class (`Poller`, `Map`, `History`, `Recovery`, `Board`,
`Wire`); loops are loops over arrays. Each method is proved equal to a function on values, and the theorems
about runs are about those functions. The Modbus peer, the socket, flash, NVS, power and the clock are
oracles: arbitrary values that no lemma restricts unless its contract says so.

| file | firmware | subject |
|---|---|---|
| Scheduler | main/custom_map.c, main/gateway_poll.c | the earliest-due-first scan and its fairness |
| ModbusCodec, ModbusTransport | main/modbus_tcp.c | exact frames, bit packing; the deadline-bound staged reader |
| AtsModel, AtsDecoding, GatewayPoll, GatewayPollSafety | main/ats_model.c, main/gateway_poll.c | sample blocks and their decoder, the identity gate, where samples come from |
| CustomPoint, CustomPoll, CustomPollTiming | main/custom_map.c | decoding one point, the custom poller, the stale limit |
| LinkGeneration, LinkSamples, LinkProvenance, OldSample, NetworkTasks | main/app_main.c | network events, poll iterations and snapshots, interleaved; which samples survive a link change and where they come from; the code of each section |
| HealthyLink | main/app_main.c, main/custom_map.c | the stale limit across poller, publication and snapshot |
| RequestGap | main/gateway_poll.c, main/custom_map.c | the pause between two requests |
| Decimal, CsvReader, CustomMap, CustomMapParse, CustomMapReasons, CustomMapRoundTrip | main/custom_map.c | CSV rows, the string pool, all-or-nothing parsing, why a text is rejected, the parser against a printer |
| Catalog | main/gateway_bacnet.c, main/gateway_config.c | what may be published |
| CovRecovery | main/gateway_bacnet.c | notifications to repeat |
| JsonScan | main/gateway_config.c | the two scans before the JSON parser |
| GatewayStorage | main/gateway_storage.c | claiming the off-table flash region, over many boots |
| Crc32, HistoryBlob, HistoryImage, ErrorHistory, HistoryFlush, HistoryEvents | main/error_history.c | checksum, flash image, ring, flush against crashes, what the ring holds |

`dafny verify dfyconfig.toml` checks everything.

## Main results

1. A snapshot gives up on a custom sample exactly when it is older than its limit (`CustomPoll.ShownExactly`), and that
   limit covers the worst healthy sweep (`CustomPollTiming.StaleLimitCoversSweep`), also in the snapshots that other
   tasks take while results are published (`HealthyLink.HealthySnapshot`).
2. Which ATS points are shown as usable, in every interleaving of network events, poll iterations and snapshots:
   exactly those of which a fresh, unfaulted read is in a published set of the present network generation, with its
   words and time (`LinkProvenance.ShownBlockExactly`, `LinkProvenance.ShownBlockProvenance`). A custom point shows its last published sample, good only if it is of the
   present generation (`LinkSamples.ShownSampleExactly`, `LinkGeneration.CustomPointIsCurrent`).
3. The error history holds the failures that were recorded, field by field and in order
   (`HistoryEvents.LogIsWhatWasRecorded`). What it counts as saved is in flash, whatever is recorded meanwhile and
   wherever power fails (`HistoryFlush.SavedIsStored`, `HistoryFlush.CrashKeepsSaved`,
   `HistoryFlush.NotPendingExactness`), and an undisturbed flush saves everything (`HistoryFlush.FlushSaves`). A boot
   accepts exactly the checksummed images of a ring (`HistoryImage.AcceptedExactly`).
4. Any change of one byte of a stored history, or of four adjacent bytes that do not run over the end of its checksum
   field, is detected (`HistoryBlob.ByteCorruptionDetected`, `HistoryBlob.WordCorruptionDetected`).
5. No register of the old map is read before the controller has been identified (`GatewayPollSafety.IdentityGate`).
   A point is usable exactly while an identified read of its block, and of what qualifies it, stands and is fresh
   (`GatewayPollSafety.PointExactly`, `GatewayPollSafety.SampleProvenance`), and then shows what the registers mean
   (`AtsDecoding.PointShown` and the lemmas on each encoding).
6. However the bytes of an exchange are cut up, the staged socket reader returns what the pure decoder makes of the
   whole frame, unless the peer stops before the last byte has moved (`ModbusTransport.FragmentationIndependence`,
   and for the whole call with its connection `ModbusTransport.ReadIsDecoder`).
7. A CSV text of legal size cannot exhaust the string pool (`CustomMapParse.StringsNeverRunOut`), and every accepted
   map is publishable (`Catalog.AcceptedMapsArePublishable`).
8. The parser accepts only maps that rows can describe (`CustomMapRoundTrip.AcceptedMapsAreCsvMaps`), and every such
   map, written out, is parsed as itself (`CustomMapRoundTrip.MapReadsBack`). It rejects a text for the first objection
   to its first bad line (`CustomMapReasons.RowRefused`, `CustomMapReasons.LineBlamed`).
9. Two requests to the device are at least 250 ms apart, except exactly after a link change that comes too early
   (`RequestGap.AtsGapExactly`, `RequestGap.CustomGapExactly`).
10. The off-table flash region is registered only after some boot saw all of it blank (`GatewayStorage.ClaimSafety`).

## Where the code promises less than it seems to

- A custom point can show a sample from before a link change, with its old number and time, as unverified: an
  undecodable reply replaces the communication-failure mark. `OldSample.OldSampleIsShown` is such a run. It happens
  exactly when no reply for the point has decoded in a published iteration of the present generation
  (`LinkSamples.ShownSampleExactly`, `LinkSamples.SampleIsCurrentExactly`).
- main/custom_map.h:64 and the firmware's README.md:66-69 promise 250 ms between two requests outright, but
  main/app_main.c:154 and main/app_main.c:177 reset the time of the next request when the link changes. Without a link
  change the gap holds; after one it is certain exactly if the change came after the gap was over
  (`RequestGap.AtsGapExactly`) or no point is due before that (`RequestGap.CustomGapExactly`). It can be as little as
  the 25 ms between two iterations of the poll loop (`RequestGap.AtsGapShort`, `RequestGap.CustomGapShort`).
- Failures should lead to a bounded but real pause. `consecutive_failures` wraps in main/gateway_poll.c:73, and the
  failure that wraps it loses the pause of at least five seconds, unless it is a refused identity read
  (`RequestGap.AtsFailurePauseExactly`). That takes 2^32 failures in a row; `RequestGap.AtsFailurePauseLost` is such a
  run. In main/custom_map.c:385 the counter saturates and the pause is always kept
  (`RequestGap.CustomRequestCloses`).
- `saved_generation == generation` reads as "nothing pending" also when start-up could not create the lock, as on a
  first boot with an empty store (`HistoryFlush.NotPendingWithoutLock`). It means that flash holds the ring exactly if
  the lock exists, or the store held a blank history from the start and was never written
  (`HistoryFlush.NotPendingExactness`).

## Model

| member | source | states |
|---|---|---|
| Scheduler.SelectDue | main/custom_map.c:356-364 | the scan over the due times returns the slot that `Pick` names, `count` when none is due |
| Scheduler.PickIsEarliest | main/gateway_poll.c:50-59 | a slot is picked exactly when one is due, and then it is the least (due time, index) pair among all slots |
| Scheduler.RankBound | main/custom_map.c:356-364 | at most count - 1 slots can be ahead of a slot |
| Scheduler.ServingOthersAdvances | main/custom_map.c:356-382 | serving another slot while slot i is due, and rescheduling it later than now, moves i up by exactly one place |
| Scheduler.ServingNeverDelays | main/gateway_poll.c:50-76 | rescheduling a served slot never moves another slot back; a slot due no later than the new time ends at most in the last place but one |
| ModbusCodec.BuildReadRequest | main/modbus_tcp.c:77-94 | writes twelve bytes that a server parses as exactly the requested transaction, unit, function, address and quantity, or leaves the buffer alone and returns 0 |
| ModbusCodec.RequestReachesServer | main/modbus_tcp.c:86-91 | reading the request ADU the way a server does gives back what was asked for |
| ModbusCodec.ArgumentsExactly | main/modbus_tcp.c:77-84 | what may be asked for: functions 1 to 4, 1 to 50 points, none past the last address |
| ModbusCodec.RequestFrameExactly | main/modbus_tcp.c:86-92 | a server reads a request out of the frame built for it and out of no other |
| ModbusCodec.DecodeReadResponse | main/modbus_tcp.c:115-177 | same verdict, exception code and words as the pure decoder; on success only the first qty words of the output change, on failure none |
| ModbusCodec.DecodeEncode | main/modbus_tcp.c:159-173 | decoding a server's encoding of any register list or LSB-first packed bit list returns that list |
| ModbusCodec.DecodeExactness | main/modbus_tcp.c:96-173 | a frame is accepted with given values if and only if header, function, byte count and length are those of the server's encoding of the values and the payload carries the same points (bit payloads may differ in padding only) |
| ModbusCodec.ExceptionExactness | main/modbus_tcp.c:146-153 | an exception is reported exactly for the matching nine-byte exception frame with a nonzero code |
| ModbusCodec.VerdictExactly | main/modbus_tcp.c:96-173 | the verdict on any frame of nine bytes or more, from its fields: the first thing that is wrong with it |
| ModbusCodec.ShortVerdict | main/modbus_tcp.c:125-140 | and on a shorter one, or for refused arguments |
| ModbusTransport.WaitReady | main/modbus_tcp.c:186-218 | retries interruptions only, reports readiness only when confirmed before the deadline, times out otherwise |
| ModbusTransport.SendExact | main/modbus_tcp.c:220-245 | the peer has received exactly the bytes up to the position reached, in order |
| ModbusTransport.ReceiveExact | main/modbus_tcp.c:247-268 | the buffer holds the peer's next bytes, in order, from the given offset, and nothing else of it changed |
| ModbusTransport.WaitEnds | main/modbus_tcp.c:186-218 | which of ready, timed out, failed and still waiting each `select` result leads to, with the clock before and after it |
| ModbusTransport.SendExplained | main/modbus_tcp.c:220-245 | a send ends as sent only with every byte transferred; a timeout or an error has its cause in the turns that it took |
| ModbusTransport.ReceiveExplained | main/modbus_tcp.c:247-268 | the same for a receive, a connection closed by the peer included |
| ModbusTransport.NoConnection | main/modbus_tcp.c:296-357 | what the read returns when no connection comes up |
| ModbusTransport.RunExchange | main/modbus_tcp.c:359-376 | send, header, check, body, decode with a response buffer of exactly 109 bytes, no store outside it; the outcome is that of `Exchange`; what was sent is a prefix of the request, all of it unless the transport failed |
| ModbusTransport.ReadPoints | main/modbus_tcp.c:270-385 | the whole read, argument and connection errors included; the output changes only on success, elapsed time saturates at 32 bits; what was sent, if it was all sent, a server reads as exactly this transaction, unit, function, address and quantity, and nothing is sent for refused arguments |
| ModbusTransport.StagedIsPure | main/modbus_tcp.c:359-376 | for every schedule, timely or not, a verdict other than a transport failure is the pure decoder's verdict on the assembled frame, and every turn it took began before the original deadline |
| ModbusTransport.FragmentationIndependence | main/modbus_tcp.c:184-268 | on every timely schedule of partial transfers, interruptions and retries the staged reader returns the pure decoder's result; the one exception is that the schedule was used up, by a peer that moved data fewer than 124 times |
| ModbusTransport.EnoughTurnsDecide | main/modbus_tcp.c:184-268 | with 124 turns that move data, the result is always the decoder's |
| ModbusTransport.ReadIsDecoder | main/modbus_tcp.c:270-385 | on a timely schedule the whole call refuses its arguments, or fails as a transport error exactly where no connection comes up, or returns the pure decoder's result, unless the schedule was used up |
| AtsModel.FindExactBlock | main/ats_model.c:15-22 | the first scan block with this offset and count, -1 when there is none |
| AtsModel.FindContainingBlock | main/ats_model.c:24-33 | the first scan block that contains the registers, -1 only when none does |
| AtsModel.ExactFinds | main/ats_map.inc:352-376 | looking up the offset and count of a table row finds that row |
| AtsModel.ScanPlan | main/ats_map.inc:352-376 | the 23 scan blocks: where each begins and ends, how often it is read and when it is stale |
| AtsModel.ApplyBlock | main/ats_model.c:40-53 | only an exact declared block is stored, never a result dated before the last good one; only that block changes, it becomes acquired and not failed |
| AtsModel.FailBlock | main/ats_model.c:55-66 | marks exactly the declared block failed unless the failure is dated before its last good read |
| AtsModel.DecodeAll | main/ats_model.c:208-239 | every value is the decoding of its point: number, text, quality, time and words, as `AtsDecoding.PointShown` states it |
| AtsModel.QualifiedNeedsContext | main/ats_model.c:167-206 | qualification reports communication failure exactly when a register the point is qualified against is not available |
| AtsModel.DecodedQualityMeansGoodBlock | main/ats_model.c:68-75 | a point shows communication failure exactly when its block is not good, or its raw value is well formed and its context is missing; otherwise it carries the words and time of the block's last good read |
| AtsDecoding.FieldReadsBack | main/ats_model.c:113-114 | a bit field is read as itself, whatever the register holds around it |
| AtsDecoding.EnumerationExact | main/ats_model.c:123-131 | documented values are the states from 1 on, the last state stands for all others and is never good, the reserved transition mode is unverified |
| AtsDecoding.TextExact | main/ats_model.c:153-163 | a text is good with given content exactly when the registers spell it, low byte first, up to a NUL or the end |
| AtsDecoding.ClockExact | main/ats_model.c:138-144 | a clock is good with text hh:mm exactly when its register counts those minutes since midnight |
| AtsDecoding.DateExact | main/ats_model.c:92-103 | a date is good with text yyyy-mm-dd exactly when its register packs that day of the Gregorian calendar, and good for no register that packs none |
| AtsDecoding.VersionExact | main/ats_model.c:135-137 | a version reads major.minor exactly for the register with those two bytes |
| AtsDecoding.CounterExact | main/ats_model.c:132-134 | a two-register counter, more significant register first, is read as itself |
| AtsDecoding.RegisterExact | main/ats_model.c:115-118 | a register reads as its value times numerator over denominator |
| AtsDecoding.RegisterFieldExact | main/ats_model.c:113-122 | so does a field of one, whatever the rest of the register holds; a flag reads as its field, good exactly when that is 0 or 1 |
| AtsDecoding.FlagExact | main/ats_model.c:119-122 | a whole register as a flag: 0 or 1, anything else unverified |
| AtsDecoding.TextShown | main/ats_model.c:153-163 | what any text shows: the characters before the first NUL one for one, '?' for each that cannot be printed, which makes it unverified |
| AtsDecoding.OtherFormsExact | main/ats_model.c:115-164 | which encodings have a number and which a text, and what a clock or date outside its range shows |
| AtsDecoding.AngleQualified | main/ats_model.c:174-183 | an angle is not applicable unless both source bits are set and, for offset 18, the mode is 2; never verified |
| AtsDecoding.BoardQualified | main/ats_model.c:184-191 | an expansion-board register follows what the board's own register says is installed |
| AtsDecoding.AssignmentQualified | main/ats_model.c:192-196 | outputs and inputs are applicable exactly if one of the four, or five, assignment bits is set |
| AtsDecoding.OthersQualified | main/ats_model.c:172-173 | everything else is good but for the listed registers and values |
| AtsDecoding.PointShown | main/ats_model.c:208-239 | what a point shows before its first read and after: words, time, number, text, and the quality as block, encoding and context decide it in that order |
| GatewayPoll.Poller.constructor | main/gateway_poll.c:4-9 | nothing acquired, everything due, identity unknown |
| GatewayPoll.Poller.GoOffline | main/gateway_poll.c:11-20 | faults all 23 blocks and restarts the identity check, changing nothing else |
| GatewayPoll.Poller.RejectProfile | main/gateway_poll.c:22-27 | the same, with a 30 s pause |
| GatewayPoll.Poller.HandleFailure | main/gateway_poll.c:78-88 | a transport failure faults everything, a refused identity read rejects the profile, and backoff never shortens the pause |
| GatewayPoll.Poller.HandleIdentity | main/gateway_poll.c:93-110 | one identity stage: reject with its reason, advance, or verify for five minutes |
| GatewayPoll.Poller.Poll | main/gateway_poll.c:29-116 | the new state is `Step` of the old one, for every reply; a request is sent exactly when the pause is over and something is to be asked |
| GatewayPoll.RequestExactly | main/gateway_poll.c:29-60 | which registers are asked for: the identity registers of the stage, or the block due first |
| GatewayPoll.CheckPassed | main/gateway_poll.c:93-110 | the whole state after an identity check that confirms the controller |
| GatewayPoll.CheckFailed | main/gateway_poll.c:22-110 | and after one that does not: everything faulted, the check starts over, a pause of 30 s |
| GatewayPoll.CheckLost | main/gateway_poll.c:71-88 | and after one without an answer |
| GatewayPoll.BlockAnswered | main/gateway_poll.c:61-76 | the whole state after an answered data read: the block holds the answer, the others are as they were |
| GatewayPoll.BlockRefused | main/gateway_poll.c:71-88 | and after a failed one: an exception costs the one block, any other failure all of them |
| GatewayPollSafety.IdentityGate | main/gateway_poll.c:32-110 | in every run no request touches register 1201 before checks 9998, 1199 and 1209..1211 passed in that order since the last fault or recheck, and no block is read before the 1201 check passed as well |
| GatewayPollSafety.SampleProvenance | main/ats_model.c:208-239 | a point that is not communication failure shows the words of a successful read of its block under a confirmed identity, not older than its limit, after which the block was not read again and nothing faulted the samples |
| GatewayPollSafety.PointExactly | main/ats_model.c:208-239 | in every run a point is usable if and only if a successful read of its block stands, not faulted since and within its limit, and so do reads of the registers it is qualified against, if its words need them; it then shows words and time of that read |
| GatewayPollSafety.FaultReachesEverySample | main/gateway_poll.c:77-86 | right after a transport failure, rejection or link loss every point of any catalog shows communication failure at any time |
| GatewayPollSafety.BoundedBypass | main/gateway_poll.c:50-76 | a due block is passed over by at most 22 data requests for other blocks, whatever is answered and however often the identity is checked again |
| CustomPoint.ReadText | main/custom_map.c:260-269 | the characters of an ASCII point up to the first NUL, nothing if one is not printable or follows a NUL |
| CustomPoint.ApplyPoint | main/custom_map.c:250-308 | a valid reading replaces number or text, raw words, quality and time; an invalid one only sets the quality to unverified; a wrong word count changes nothing |
| CustomPoint.PatternRoundTrip | main/custom_map.c:271-275 | the four byte orders undo what a device does that sends bytes A, B, C, D in the named order |
| CustomPoint.IntegersReadBack | main/custom_map.c:276-296 | every 16- or 32-bit integer, signed or not, in every byte order, is decoded to itself, scaled and offset, and rejected exactly when that is not representable |
| CustomPoint.TextsReadBack | main/custom_map.c:260-269 | an ASCII point has value t if and only if its registers spell t in printable characters, NUL-padded |
| CustomPoint.BitExact | main/custom_map.c:279-281 | a bit point has value 1 exactly when that bit of its register is set, in either byte order |
| CustomPoint.FlagExact | main/custom_map.c:271-281 | a coil or discrete input reads as 0 or 1 |
| CustomPoint.ScaledExactly | main/custom_map.c:283-299 | a number is scaled first and offset then, and shown only if it is representable and, for a state, a state of the point |
| CustomPoll.Poller.constructor | main/custom_map.c:310-318 | every point unread and due |
| CustomPoll.Poller.GoOffline | main/custom_map.c:320-327 | every quality becomes communication failure, nothing else changes |
| CustomPoll.Poller.Snapshot | main/custom_map.c:339-350 | a copy in which exactly the acquired points older than their limit are marked stale; the limit is spelled out in `CustomPoll.ShownExactly` |
| CustomPoll.ShownExactly | main/custom_map.c:329-350 | a snapshot shows communication failure in place of the quality exactly for an acquired sample older than 5 s, than three poll periods and than 750 ms per point and 1200 ms more; nothing else of it changes |
| CustomPoll.Answered | main/custom_map.c:371-382 | the whole state after an answer: the point's sample replaced if the words decode and unverified otherwise, due a poll period later, the next request in 250 ms |
| CustomPoll.Refused | main/custom_map.c:383-392 | and after a failure: an exception costs the one point its quality, any other failure all of them; five seconds for each failure in a row, at most thirty |
| CustomPoll.Poller.NoteFailure | main/custom_map.c:383-392 | failure bookkeeping: saturating counter, retry after at least five seconds, all points faulted unless the device answered with an exception |
| CustomPoll.Poller.Poll | main/custom_map.c:352-394 | the new state is `Step` of the old one, for every reply, described by `CustomPoll.Answered` and `CustomPoll.Refused`; a request is sent exactly when the pause is over and a point is due |
| CustomPollTiming.StaleLimitCoversSweep | main/custom_map.c:329-394 | for any map and any poll periods, from a good read of a point on, every snapshot taken while reads succeed and read time plus delay stays within 250 ms shows it good; its age stays below poll + 500 count + 250 |
| CustomPollTiming.HealthyRun | main/custom_map.c:329-337 | the induction behind it: the bound holds after any number of calls, for any slack already used |
| CustomPollTiming.BoundedBypass | main/custom_map.c:356-391 | a due point is passed over by at most count - 1 requests for other points, across successes, exceptions, transport failures and link changes |
| HealthyLink.HealthySnapshot | main/app_main.c:146-207 | while the link stays up and the poller healthy after a good read of a point that has been published, every snapshot taken up to the next publication, which comes within 250 ms of its call, shows the point good |
| HealthyLink.SteadyRun | main/app_main.c:146-187 | while the link stays up, the poll loop's poller is that of its calls in order, and the published one lags behind by at most the call in work |
| RequestGap.AtsGap | main/gateway_poll.c:31-88 | two successive requests with no link change between them are 250 ms apart, from completion to start; after a change only its time is left to wait for |
| RequestGap.AtsGapExactly | main/gateway_poll.c:31-88 | the gap is certain if and only if the link has not changed since the request, or changed when the gap was over |
| RequestGap.AtsGapShort | main/app_main.c:151-189 | a run in which the link changes during a request and the next one goes out as little as the 25 ms between two iterations after it has completed |
| RequestGap.AtsFailurePauseExactly | main/gateway_poll.c:71-88 | the pause of at least five seconds after a failed request is kept if and only if the failure counter does not come out as 0, or it was a refused identity read |
| RequestGap.AtsFailurePauseLost | main/gateway_poll.c:71-88 | a run from power-up of 2^32 unanswered requests, the last of which is followed by the gap alone |
| RequestGap.CustomGap | main/custom_map.c:355-391 | the gap of the custom poller, without and with a link change |
| RequestGap.CustomGapExactly | main/custom_map.c:355-391 | it is certain if and only if the link has not changed since the request, or no point is due between the change and the end of the gap |
| RequestGap.CustomGapShort | main/app_main.c:151-189 | for every map of two points or more, a run with the same gap of as little as the 25 ms between two iterations |
| RequestGap.CustomRequestCloses | main/custom_map.c:374-391 | a request closes the poller for at least 250 ms, and for at least five seconds if it fails |
| NetworkTasks.Gateway.constructor | main/app_main.c:131-145 | power-up: link down, nothing published, both pollers at their start |
| NetworkTasks.Gateway.NetworkEvent | main/app_main.c:108-124 | the link state and exactly one new generation |
| NetworkTasks.Gateway.ReadLink | main/app_main.c:147-150 | link state and generation are read together |
| NetworkTasks.Gateway.Work | main/app_main.c:151-172 | both pollers go offline exactly when the link was lost or changed; then the poller of the profile is stepped if the link is up; the failure handed to the history is that of its request, if it made one that failed |
| NetworkTasks.AtsFailureShows | main/app_main.c:164-169 | the failure counter moves exactly with a failed request, the expected refusal excepted, and the last-request fields then describe that request, across wraps of the counter |
| NetworkTasks.CustomFailureShows | main/app_main.c:157-163 | the same for the custom poller |
| NetworkTasks.FailureHanded | main/app_main.c:146-172 | an iteration records a failure exactly when the counter of the profile's poller moved, and then that poller's last request and its result |
| NetworkTasks.Gateway.Publish | main/app_main.c:173-187 | a sample set overtaken by a link change is faulted before it is published under the generation it was started in |
| NetworkTasks.Gateway.SnapshotBlocks | main/app_main.c:195-207 | for each point the value `ShownBlockPoint`, which `LinkGeneration.ShownExactly` and `LinkProvenance.ShownBlockExactly` pin |
| NetworkTasks.Gateway.SnapshotPoints | main/app_main.c:195-207 | the same for the custom profile |
| LinkGeneration.NextKeeps | main/app_main.c:108-187 | every step of the event handler and the poll loop, in any interleaving, keeps the invariant that usable samples come from finished iterations within the generation they are labelled with |
| LinkGeneration.ShownExactly | main/app_main.c:195-207 | both profiles: the decoded value, its quality replaced by communication failure unless the link is up, the published set is of the present generation and the configuration is in order; for a custom point, or it is past its limit |
| LinkGeneration.BlockPointIsCurrent | main/app_main.c:195-207 | an ATS point shown as anything but communication failure comes from an iteration that started and published within the present generation, with the link up |
| LinkGeneration.CustomPointIsCurrent | main/app_main.c:195-207 | the same for a custom point shown good |
| LinkProvenance.RecordsHold | main/app_main.c:146-187 | in every run each usable block, in work and published, has a standing source among the poller's events, read in the iteration that the block is labelled with |
| LinkProvenance.ShownBlockProvenance | main/app_main.c:195-207 | in every run an ATS point shown as anything but communication failure has words and time of a successful read of its block under a confirmed identity, in an iteration within the present generation, not older than its limit and not faulted since |
| LinkProvenance.ShownBlockExactly | main/app_main.c:195-207 | in every run an ATS point is shown as anything but communication failure if and only if link, generation and configuration are in order and a read of its block published in it stands and is fresh, with the context it needs; words and time are those of that read |
| LinkSamples.SamplesHold | main/app_main.c:146-187 | in every run the poll loop and the published set hold, for every custom point, words and time of the last reply that decoded, up to the present and up to the last published iteration, and the number or text that the words decode to |
| LinkSamples.SampleIsCurrentExactly | main/app_main.c:146-207 | in every run the published sample of a custom point belongs to the present generation if and only if some reply for the point decoded in a published iteration of it |
| LinkSamples.ShownSampleExactly | main/app_main.c:195-207 | a custom point shown as anything but communication failure shows words and time of that last reply and what they decode to, no older than its limit; nothing decoded, nothing shown; good implies the present generation, and unverified has it under exactly that condition |
| OldSample.OldSampleIsShown | main/custom_map.c:304-307 | a run from power-up to a snapshot that shows in generation 3 the text and time of a sample of generation 1, as unverified |
| JsonScan.HasNulCharacter | main/gateway_config.c:63-71 | found exactly when the text has a NUL byte or a \u0000 escape whose backslash is not itself escaped |
| JsonScan.NulExactly | main/gateway_config.c:63-71 | for every JSON text, that is exactly when some decoded string or key contains U+0000 (section 7 of RFC 8259) |
| JsonScan.IsFlat | main/gateway_config.c:73-91 | the scan, for any text, equals its recursive description |
| JsonScan.FlatExactly | main/gateway_config.c:73-91 | for every JSON text, it accepts exactly nesting depth at most 1, whatever quotes, escapes and braces occur inside strings (sections 2 and 7 of RFC 8259) |
| CovRecovery.Recovery.Timeout | main/gateway_bacnet.c:236-264 | only a confirmed COV notification with this invoke identifier, decoded to its last byte, counts; its object is remembered unless it already is or the table is full; at most one entry per object, and the pending count equals the used entries |
| CovRecovery.Recovery.Clear | main/gateway_bacnet.c:129-138 | exactly this object is forgotten, and counted as refreshed if it was due |
| CovRecovery.Recovery.RetryPending | main/gateway_bacnet.c:120-127 | true exactly when the object is remembered and due |
| CovRecovery.NotifiableFit | main/gateway_bacnet.c:29-41 | 256 points and 6 diagnostics are fewer than the 264 slots |
| CovRecovery.NeverDropped | main/gateway_bacnet.c:236-264 | after any history the table holds exactly the objects still owed a notification, each from one second after its first timeout, and has a free slot |
| CovRecovery.FailedNotificationExactly | main/gateway_bacnet.c:236-251 | a request that reads confirmed request, this invoke identifier, COV notification and is decoded to its end names its object; for any other invoke identifier it names none |
| CovRecovery.OnlyFailedNotifications | main/gateway_bacnet.c:236-251 | and nothing else does |
| GatewayStorage.OverlapIsSharedByte | main/gateway_storage.c:27-30 | the comparison holds exactly when some byte belongs to both ranges |
| GatewayStorage.CheckRow | main/gateway_storage.c:41-62 | the error of the next listed partition: label, size, alignment, bounds, table size, overlap |
| GatewayStorage.TakeInventory | main/gateway_storage.c:32-66 | the first error of the listing, and on success the layout |
| GatewayStorage.InventorySound | main/gateway_storage.c:32-66 | an accepted listing has every primary partition inside the flash, no two sharing a byte, and names the gateway partition exactly when one is labelled so |
| GatewayStorage.IsExact | main/gateway_storage.c:68-83 | true exactly when one partition of that kind (and label) exists, writable and at that place |
| GatewayStorage.IsFactoryLayout | main/gateway_storage.c:85-93 | recognizes the factory layout exactly |
| GatewayStorage.IsOtaLayout | main/gateway_storage.c:95-108 | recognizes the two-slot layout exactly |
| GatewayStorage.BlankErrorExact | main/gateway_storage.c:132-138 | the chunked scan finds no error exactly when every byte was read and is 0xff |
| GatewayStorage.Board.ClaimBlankRegion | main/gateway_storage.c:129-148 | a region not seen wholly blank leaves the marker as it was and gives the scan's error; otherwise the marker write decides |
| GatewayStorage.Board.Prepare | main/gateway_storage.c:150-197 | outcome, marker and registration of a boot, with a power cut or a flash or NVS error anywhere |
| GatewayStorage.PrepareKeeps | main/gateway_storage.c:110-197 | the marker changes only to the ownership marker and only after the region was seen blank, a foreign marker is never replaced, registration needs a qualifying layout and the committed marker, and an undisturbed boot registers exactly when the region is owned or blank |
| GatewayStorage.ClaimSafety | main/gateway_storage.c:110-197 | over any number of boots, the region is registered only with the marker committed, after some boot saw all of it blank, inside the flash and sharing no byte with a listed primary partition |
| GatewayStorage.PrepareEnds | main/gateway_storage.c:150-197 | how each kind of board ends up before the off-table part, with its error code |
| GatewayStorage.OffTableEnds | main/gateway_storage.c:110-197 | and in it: a foreign marker, a region not blank, a failed write and a wrong registration are each refused with their code; anything else registers |
| GatewayStorage.PowerCuts | main/gateway_storage.c:110-197 | a power cut ends the off-table part where it falls; up to there it is the boot without the cut |
| GatewayStorage.RowCodes | main/gateway_storage.c:41-62 | the error code of each fault of a listed partition |
| GatewayStorage.BlankErrorFirst | main/gateway_storage.c:132-138 | the scan ends with the error of the first chunk that cannot be read or is not blank |
| GatewayStorage.FactoryBoardStarts | partitions.csv:1-5 | a board with the factory partition table starts, registering nothing |
| GatewayStorage.OtaBoardStarts | partitions.ota.csv:1-7 | so does one with the two-slot table that lists the region |
| GatewayStorage.OlderBoardStarts | main/gateway_storage.c:150-197 | and one with the older two-slot table registers the region exactly if it owns it or finds it blank |
| CsvReader.ScanBody | main/custom_map.c:54-76 | one field from just after its opening quote: its text and where it ends, or rejection |
| CsvReader.SkipSeparator | main/custom_map.c:77-87 | a comma between fields; LF, CRLF or the end of input after the last |
| CsvReader.ReadRowAt | main/custom_map.c:50-90 | the fifteen fields from a position and the position after the row, or rejection |
| CsvReader.RowAtIsReadRow | main/custom_map.c:50-90 | reading at a position is reading the rest of the input from its start |
| CsvReader.RowExact | main/custom_map.c:50-90 | a row is accepted with given texts exactly when the input starts with 15 bare or quoted fields of at most 512 printable ASCII characters that carry them, and a line ending (section 2 of RFC 4180, without embedded line breaks) |
| CsvReader.FieldRules | main/custom_map.c:58-74 | a field is at most 512 characters of printable ASCII, quoted if it has a comma or a quote |
| CsvReader.QuotedRowReadsBack | main/custom_map.c:50-90 | any 15 printable texts, written as quoted fields, are read back unchanged |
| CsvReader.RowConsumes | main/custom_map.c:50-90 | a row uses up at least its texts and 14 more bytes |
| CustomMap.Integer | main/custom_map.c:21-36 | exactly the decimal numbers within bounds, and the 32-bit accumulator never wraps; every numeric field of a row goes through it |
| CustomMap.Map.SaveString | main/custom_map.c:92-100 | appends the text and a NUL, moving nothing, exactly when it fits |
| CustomMap.Map.AddStates | main/custom_map.c:180-197 | stores the labels between the bars in order, or the first objection to one of them |
| CustomMap.Map.AddRow | main/custom_map.c:102-203 | the map's points, read back out of the pool, are the old ones and the new one; or the first reason to reject the row |
| CustomMap.CStringKept | main/custom_map.c:92-100 | appending to the pool changes no string in it |
| CustomMapParse.CopyMap | main/custom_map.c:239 | the caller's map reads back as the scratch map |
| CustomMapParse.ParseRow | main/custom_map.c:224-228 | one row of the file: the map gains exactly the point of the row, or why not; accepted or rejected, what it stores is not more than the input it consumes, so that the loop over the rows keeps the pool within the bytes consumed since the header |
| CustomMapParse.ParseMap | main/custom_map.c:205-246 | all or nothing: on success the map holds the parsed points, on rejection it is untouched and line and reason are those of the first offending row |
| CustomMapParse.RowsFit | main/custom_map.c:223-228 | the strings of an accepted text take at most the bytes of its rows, for the recursive description of the parser |
| CustomMapParse.StringsNeverRunOut | main/custom_map.c:92-100 | no text of legal size is rejected for lack of string storage |
| CustomMapParse.AcceptedMapsAreGood | main/custom_map.c:102-203 | an accepted map has 1 to 128 pollable points, with distinct names and identifiers, unreserved, bounded texts and distinct state labels |
| CustomMapReasons.IdentityRefused | main/custom_map.c:111-121 | the first objection to instance, name, description and object type |
| CustomMapReasons.DuplicateExactly | main/custom_map.c:122-125 | the first earlier point that clashes decides whether name or object is blamed |
| CustomMapReasons.AccessRefused | main/custom_map.c:126-145 | the first objection to function, address, data type and how they suit the object |
| CustomMapReasons.EncodingRefused | main/custom_map.c:126-176 | and to scale, units, bit, length, range, byte order and poll period |
| CustomMapReasons.LabelsRefused | main/custom_map.c:184-197 | the first state label that is refused, and why |
| CustomMapReasons.RowRefused | main/custom_map.c:102-203 | a row is rejected if and only if one of these objects, for the first that does |
| CustomMapReasons.FileRefused | main/custom_map.c:205-228 | what is blamed on the header line |
| CustomMapReasons.LineBlamed | main/custom_map.c:223-230 | the line that is blamed is the first that cannot be read or whose row is rejected |
| CustomMapRoundTrip.DecimalReadsBack | main/custom_map.c:21-36 | the decimal text of a number within bounds is read as that number |
| CustomMapRoundTrip.EncodingReadsBack | main/custom_map.c:126-176 | type, function, address, order, scale, units, bit, length and period of any row point, written out, are read back |
| CustomMapRoundTrip.AcceptedEncoding | main/custom_map.c:126-176 | and nothing else is accepted: every accepted combination is one of those |
| CustomMapRoundTrip.LabelsOfJoined | main/custom_map.c:184-197 | cutting labels joined by bars gives the labels |
| CustomMapRoundTrip.RowReadsBack | main/custom_map.c:102-203 | a row written from a point adds exactly that point, whatever the map already holds, if there is room and no clash |
| CustomMapRoundTrip.MapReadsBack | main/custom_map.c:205-246 | every map that rows can describe, written out within the legal size, is parsed as exactly that map |
| CustomMapRoundTrip.AcceptedMapsAreCsvMaps | main/custom_map.c:102-246 | every accepted text describes such a map, at most 512 state labels in all, its numbers defaults or read by `strtod` |
| CustomMapRoundTrip.AcceptedMapsReprint | main/custom_map.c:205-246 | writing out an accepted map and parsing the result gives the same map |
| Catalog.CheckStates | main/gateway_bacnet.c:366-374 | accepts exactly present, bounded, distinct labels that fit the list together |
| Catalog.CheckCatalog | main/gateway_bacnet.c:348-378 | accepts exactly the catalogs with 1 to 256 well-formed entries, distinct names and identifiers, and valid state tables |
| Catalog.FillStates | main/gateway_bacnet.c:290-300 | fills the buffer with the labels, each with its NUL and zeros after them, exactly when list and final NUL fit in 1024 bytes |
| Catalog.CheckedStatesFit | main/gateway_bacnet.c:364-374 | a state table that the catalog check accepts fits that buffer |
| Catalog.CatalogRules | main/gateway_bacnet.c:348-378 | the rules of a publishable catalog with their limits: object types, instances, texts, distinctness and state tables |
| Catalog.CheckDeviceName | main/gateway_config.c:139-142 | accepts exactly printable names of 1 to 95 characters outside the reserved prefix that no point has |
| Catalog.DeviceNameRules | main/gateway_config.c:139-142 | a name is accepted exactly with 1 to 95 printable characters outside the prefix, and unlike every point's name |
| Catalog.AcceptedMapsArePublishable | main/gateway_bacnet.c:348-378 | every CSV map that the parser accepts, with a device name accepted beside it, is published point by point with its texts and state labels, passes the catalog check and fits the state-list buffers |
| Crc32.ShiftInjective | main/error_history.c:53-54 | the bit step is injective on 32-bit registers |
| Crc32.FeedWord | main/error_history.c:49-55 | feeding four bytes one by one is feeding one 32-bit word at once |
| Crc32.ByteChangeDetected | main/error_history.c:45-57 | inputs that agree outside one byte and have the same checksum are equal |
| Crc32.WordChangeDetected | main/error_history.c:45-57 | inputs that agree outside four adjacent bytes and have the same checksum are equal |
| HistoryBlob.BlobChecksum | main/error_history.c:45-57 | the loop computes the CRC of the image with its checksum field cleared |
| HistoryBlob.CheckValue | main/error_history.c:45-57 | the checksum of the nine digits is the published check value of CRC-32 |
| HistoryBlob.IsValidImage | main/error_history.c:59-80 | accepts exactly the images with the right checksum, a consistent header and valid events |
| HistoryBlob.BlobRoundTrip | main/error_history.c:16-38 | reading back the flash layout gives the structure it was written from |
| HistoryBlob.ImageLayout | main/error_history.c:16-38 | where each field of the header and each event lies in the image |
| HistoryBlob.RequestLayout | main/error_history.c:16-38 | where each field of a request lies |
| HistoryBlob.OutcomeLayout | main/error_history.c:16-38 | where each field of an outcome lies |
| HistoryBlob.EventLayout | main/error_history.c:16-38 | where the fields of an event lie |
| HistoryBlob.ImageRules | main/error_history.c:59-80 | what a valid image satisfies, with the constants written out |
| HistoryBlob.WordCorruptionDetected | main/error_history.c:45-66 | no change of four adjacent bytes leaves a valid image valid, unless the four bytes run over the end of the checksum field |
| HistoryBlob.ByteCorruptionDetected | main/error_history.c:45-66 | changing any single byte of a valid image makes it invalid |
| HistoryImage.AcceptedExactly | main/error_history.c:59-80 | for every image: it is accepted if and only if it carries its own checksum and its ring is the end of some log of well-formed events |
| ErrorHistory.CopyText | main/error_history.c:188-193 | the text up to its NUL or the last byte of the buffer, zero after it |
| ErrorHistory.History.Init | main/error_history.c:136-186 | only the first call acts; memory, writability and generation after it, for every stored image and fault |
| ErrorHistory.History.Open | main/error_history.c:149-173 | the store becomes writable exactly when it was seen to be empty or its image was taken over, and then the memory is that image |
| ErrorHistory.History.Record | main/error_history.c:195-226 | the event goes over the oldest slot with the next sequence number, and the ring changes nowhere else; what the event holds is stated by `HistoryEvents.RecordAppends` |
| ErrorHistory.History.BeginFlush | main/error_history.c:92-101 | a flush begins exactly when the store is writable, something is unsaved and 30 s have passed since the last attempt |
| ErrorHistory.History.TakeSnapshot | main/error_history.c:110-114 | the image of the ring with its checksum, and the generation it belongs to |
| ErrorHistory.History.EndFlush | main/error_history.c:119-124 | exactly the snapshot's generation becomes the saved one, and only after a successful write |
| ErrorHistory.StartExactly | main/error_history.c:136-186 | the memory, writability and generations after each kind of start-up |
| ErrorHistory.FlushExactly | main/error_history.c:92-101 | when a flush begins, and what it notes |
| ErrorHistory.RecordKeepsRing | main/error_history.c:202-223 | after a record the ring, read newest first, is the end of the log with the new event appended |
| ErrorHistory.SealedIsValid | main/error_history.c:59-80 | the image a flush writes of a well-formed ring passes the validator and reads back as that ring |
| HistoryFlush.NextKeeps | main/error_history.c:90-226 | every lock section, write result, recording in between and power cut keeps the invariant that ties ring, snapshot, store and saved generation together |
| HistoryFlush.EveryStoreIsAnOrigin | main/error_history.c:149-173 | a run can begin with any store: an acceptable image at the first boot is the ring of some log |
| HistoryFlush.NothingIsBlocked | main/error_history.c:110-116 | in every reachable state the worker's snapshot is a writable structure, the ring has its shape and the timer has not run backwards |
| HistoryFlush.RingIsEndOfLog | main/error_history.c:195-226 | whatever the store held at the first boot, after any records, flushes and reboots the ring, newest first, is the last min(total, 32) events of the log, numbered without a gap |
| HistoryEvents.RecordAppends | main/error_history.c:195-226 | a recorded failure appends one event with its port, registers, transaction, unit, function, revision, outcome and times, its texts up to their NULs, the present boot and the next number; anything else changes nothing |
| HistoryEvents.LogIsWhatWasRecorded | main/error_history.c:195-226 | after any boots, flushes and crashes the log is what this boot began with, followed by exactly the failures recorded since, in order |
| HistoryFlush.SavedIsStored | main/error_history.c:90-125 | the stored image is a valid ring over a log that includes every event of the saved generation and nothing that was never recorded |
| HistoryFlush.NotPendingExactness | main/error_history.c:94-124 | when the saved generation is the current one, flash holds the image of the ring in memory if and only if the lock exists, or a blank history was stored before the first boot and never overwritten |
| HistoryFlush.NotPendingWithoutLock | main/error_history.c:143-147 | a first boot on which the lock cannot be created: nothing counts as pending, and nothing is stored |
| HistoryFlush.ReloadIsEarlierMoment | main/error_history.c:149-173 | a store that was ever written, or held an acceptable image before the first boot, is accepted at the next boot unless start-up itself meets a fault, and gives back the ring as it stood at an earlier moment |
| HistoryFlush.CrashKeepsSaved | main/error_history.c:90-186 | after a power cut at any point and an undisturbed start-up, the log lies between that of the saved generation and the one before the cut |
| HistoryFlush.FlushSaves | main/error_history.c:90-125 | when the store is writable, 30 s after the last attempt a flush with no fault leaves the ring in flash and nothing pending |
| HistoryFlush.FailedFlushIsRepeated | main/error_history.c:90-125 | a flush without memory or with a failed write leaves everything as unsaved as it was, and another begins 30 s later and not earlier |
| HistoryFlush.AttemptsAreSpaced | main/error_history.c:94-100 | the i-th and j-th attempts of a boot are at least (j - i) times 30 s apart |
| HistoryFlush.UnacceptedImageIsPreserved | main/error_history.c:154-172 | a stored image that the validator does not accept is never overwritten |

## Left out

- Time is an unbounded number of milliseconds and the network generation an unbounded counter: 64-bit and 32-bit
  wrap-around of these is not modelled. Counters that the firmware lets wrap or saturate do so here too.
- Floating point: single-precision decoding, `strtod` and the double product and sum are parameters, so nothing is
  said about rounding. The scaling of ATS registers is exact rational arithmetic.
- NULL arguments, failed allocation inside `custom_map_parse`, quality reasons and other diagnostic texts.
- The 164-row ATS point catalog is a parameter; the scan-block table is modelled row by row.
- ATS blocks have no counterpart of `StaleLimitCoversSweep`: their stale limits do not allow for a sweep of 23 blocks.
- AtsModel.DecodeAll: leaves out the quality reasons.
- LinkGeneration.NextKeeps: the mutex is not modelled; each section under it, and the poll loop's work between two
  sections, is one step. The code of each is in `NetworkTasks.Gateway`, whose methods are proved equal to the steps.
  The heartbeats of the poll loop are not in it.
- HistoryFlush.NextKeeps: likewise; the code of each section is in `ErrorHistory.History`, whose methods are proved
  equal to the functions that the steps use.
- ModbusTransport.WaitReady: a finite schedule; when it is used up the pending `select` runs into the deadline, so an
  endless storm of interruptions before the deadline is not covered.
- ModbusTransport.FragmentationIndependence: timely schedules only, on a connection that stays open and a stream that
  holds the frame; other schedules are covered by `ModbusTransport.StagedIsPure`.
- CustomMapParse.CopyMap: rows hold offsets in place of pointers, so the rebasing of main/custom_map.c:231-238 has no
  counterpart.
- An NVS blob write is atomic: it reaches the store wholly or not at all, as the firmware's own comment assumes.
- HistoryFlush.RingIsEndOfLog: fewer than 2^64 - 1 events are recorded in the life of a device.
- HistoryFlush.NotPendingExactness: the checksum field in memory is stale between flushes, so flash is compared with
  the image of the ring, not with its bytes in memory.
- HistoryBlob.WordCorruptionDetected: says nothing of four bytes that run over the end of the checksum field into
  the boot number, where data and checksum change together.
- ErrorHistory.History.TakeSnapshot: the structure is written byte by byte in a fixed little-endian layout in place of
  a memory copy.
- GatewayStorage.Board.Prepare: platform error codes other than the firmware's own are one family; the partition list,
  flash contents and NVS answers of a boot are parameters of it.
- CovRecovery.Recovery.Timeout: what the BACnet stack reads out of the failed request, its header length and its
  service data, is a parameter.
- Configuration fields other than the device name and the CSV map, cJSON, the BACnet stack, ESP-IDF and lwIP calls,
  the web interface, updates, signing, JSON rendering of the history and the status pages.
