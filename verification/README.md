# Verification of the qsaTalk intercom core

A Dafny model of the parts of the intercom library that hold real algorithms or shared state, with proofs about them.

* **Stream to frames.** `AnnexB.dfy` says where H.264 NAL units end without scanning (Annex B of ITU-T H.264). `NaluReader.dfy` is `GetAnnexbNALU` over a file with a cursor and an end-of-file flag, proved to find exactly those ends. `FrameLoop.dfy` is the loop of `user_main`; `Framing.dfy` proves what reaches `qsa_send_video`.
* **Frames to datagrams and back.** `TalkPacket.dfy` is the packed, little-endian `struct talkdata1`. `Fragments.dfy` is `qsa_send_video` and `qsa_send_audio`, building every datagram in one buffer. `Reassembly.dfy` is a receiver written as a specification, which the sender is proved to invert. `Pipeline.dfy` composes all of it: stream in, stream out, for every stream that starts on a start code.
* **Call supervision.** `CallState.dfy` is one tick of the timer thread (as methods on the shared fields and as a step function) together with the steps the receiver and send threads take on the same fields in `jni/udp.c`. `CallRuns.dfy`, `Cadence.dfy` and `CallLength.dfy` are theorems over all interleavings.
* **The send pool.** `ControlPackets.dfy` is the codec of the request packets, `SendPool.dfy` is `start_call`, `stop_talk` and `find_ip` on the 50 slots, `SlotRace.dfy` runs the callers interleaved, one store at a time.

`Bytes.dfy` holds bytes, field widths and block copies. `dafny verify dfyconfig.toml` checks everything.

## What the proofs found

* Printing and splitting is the identity on more lists than section 7.4.1 of H.264 allows: a payload may end in zero bytes if it is the last one or a 4-byte start code follows. `RoundTrip` has the exact condition, `ZeroChangesSides` a list that breaks it.
* The framing loop delivers the stream exactly when it has a slice and no non-slice unit follows one (`DeliversAll`). `w_length` is not cleared on a non-slice unit, so a repeated parameter set makes the previous frame go out again, under the same number, and every later frame is cut from the wrong place. `WhatIsDelivered` says which bytes are lost on any stream, `EndToEnd` what the far side plays; `LastFrameLost` is a concrete one.
* The 16-bit counters are exact up to 65535 datagrams a frame (`CountersExact`); frame numbers separate frames modulo 65536.
* The duration limits are computed for 50 ms ticks (`jni/include/libqsa_common.h:29-31`) while the thread sleeps 490 ms a turn (`jni/timer.c:74`), so they come to about 250 and 1800 seconds where the comments say 30 and 180 (`jni/include/libqsa_callback.h:52-53`). The model follows the code; bounds are given in ticks, 503 and 3603.
* A `CALLEND` reply that finds no request switches supervision off and leaves the status live (`jni/udp.c:857-862`). `UnmatchedReply` is that run: the call stays on, nobody is told, and no number of ticks ends it. `OfflineMeansEnded` says exactly when a call that is not supervised is over: as long as no step is such a reply met by a caller, or a live status set while supervision is off.
* The end of a call can be reported twice. The timer hangs up and sends a `CALLEND`; if that goes unanswered too, the send thread, where it runs, calls `TalkEnd_ClearStatus` (`jni/udp.c:915`) for a call that is over (`ReportedTwice`). Everybody's end reports have a call to end exactly when that never happens (`OneReportPerCall`); the timer's own always have (`TimerReportsOnce`).
* Unless another answer or `set_device_status` comes in between, a call is supervised for at most 4150 ticks from the answer (`CallBound`), and one that long exists (`BoundIsReached`).
* Slots are safe because `start_call`, `stop_talk` and `find_ip` look for a free one under the lock. `ForceIFrame_Func` and `SendFreeArp` look first and lock afterwards, `send_info` does not lock. `SlotsAreSafe` says exactly which runs are safe: those in which no caller gets the lock after its early look went stale. `EarlyLookOverwrites` is a run in which one does, and puts its packet over one that is valid.
* A frame that goes out twice may be cut to two packet sizes, when the call starts in between. The receiver goes by the cut that reached it first (`CutOf`), so the stream is played back all the same.

## Model

| member | source | states |
|---|---|---|
| AnnexB.NextCodeLeast | jni/TestDemo/nalu.c:243-253 | the code found is a 00 00 01 and there is none before it |
| AnnexB.UnitAtBoundary | jni/TestDemo/nalu.c:149-153 | a unit is followed by a start code or by the end of the file |
| AnnexB.SplitTiles | jni/TestDemo/nalu.c:149-170 | for any stream that starts on a start code, the units with their prefixes concatenate to the stream |
| AnnexB.SplitIsPrintable | jni/TestDemo/nalu.c:128-151 | no unit contains a start code, and one that ends in 00 is last or followed by a 4-byte code |
| AnnexB.SplitPrinted | jni/TestDemo/nalu.c:85-171 | a printable list, printed at the end of any file, is split back into itself |
| AnnexB.RoundTrip | jni/TestDemo/nalu.c:85-171 | print then split is the identity if and only if the list is printable |
| AnnexB.ZeroChangesSides | jni/TestDemo/nalu.c:140-151 | a list that is not printable and what it turns into |
| NaluReader.BitFile.constructor | jni/TestDemo/nalu.c:67-83 | a file just opened: cursor 0, end not seen |
| NaluReader.BitFile.Fread | jni/TestDemo/nalu.c:96-107 | fread: how many bytes, where they go, when the end-of-file flag is set |
| NaluReader.BitFile.Fgetc | jni/TestDemo/nalu.c:140 | fgetc into an unsigned char: the next byte, or 0xFF and the flag |
| NaluReader.BitFile.SeekBack | jni/TestDemo/nalu.c:151-157 | fseek backwards, clearing the flag |
| NaluReader.Nalu.constructor | jni/TestDemo/nalu.c:32-52 | a zeroed unit record with a buffer of the given size |
| NaluReader.Nalu.Store | jni/TestDemo/nalu.c:132-136 | length, payload and header fields of a unit, shifted at the end of the file and masked elsewhere |
| NaluReader.ReadUnit | jni/TestDemo/nalu.c:96-122 | on a boundary before the end a call finds the unit there, and knows whether it is the last |
| NaluReader.FirstMatch | jni/TestDemo/nalu.c:140-144 | the backward window never reaches into the unit's own start code and first matches at the next code |
| NaluReader.EndsAt | jni/TestDemo/nalu.c:141-151 | which of 4 and 3 bytes the scan must go back |
| NaluReader.ReadPrefix | jni/TestDemo/nalu.c:94-122 | the start code's length, or return 0 or -1, with the cursor left behind |
| NaluReader.ScanUnit | jni/TestDemo/nalu.c:124-151 | the loop ends at the declared end of the unit, sentinel or code ahead accounted for, all buffer accesses in bounds |
| NaluReader.GetAnnexbNALU | jni/TestDemo/nalu.c:85-171 | return value, cursor, flag, length, payload bytes and header fields for every stream and position, without leaving a buffer that holds Span bytes |
| NaluReader.ReadAllSplits | jni/TestDemo/nalu.c:202-207 | calling until the end of the file reads the declared units |
| NaluReader.ReadBack | jni/TestDemo/nalu.c:202-207 | calling until the end of the file reads a printed list back if and only if it is printable |
| NaluReader.SpanIs | jni/TestDemo/nalu.c:128-144 | the scratch buffer needs the unit plus the next start code, or plus the sentinel |
| FrameLoop.ScanPhase | jni/TestDemo/nalu.c:203-219 | the unit read, the counters and the slice flag, set by types 1 and 5 and by no other, with a stale type after an empty or missing unit |
| FrameLoop.FetchPhase | jni/TestDemo/nalu.c:221-229 | what is taken from the second handle into the frame buffer, and when nothing is |
| FrameLoop.EmitPhase | jni/TestDemo/nalu.c:231-236 | the call of the sender, with whatever the frame buffer still holds, and the resets |
| FrameLoop.SendFrames | jni/TestDemo/nalu.c:192-237 | the loop makes exactly the calls of the run, on any two streams, and terminates |
| FrameLoop.Demo.constructor | jni/TestDemo/nalu.c:30 | the frame buffer of 1024*2000 bytes, the static counter 0 |
| FrameLoop.Demo.UserMain | jni/TestDemo/nalu.c:182-241 | the calls made and the counter left for the next call |
| Framing.UnitStep | jni/TestDemo/nalu.c:206-236 | one iteration in terms of units: a slice sends what waited, a non-slice unit waits, or drops itself and re-sends |
| Framing.EveryHead | jni/TestDemo/nalu.c:202-236 | at every loop head cursor(bits) = cursor(bits1) + ts_length + dropped, no short read, a unit is found |
| Framing.RunBalance | jni/TestDemo/nalu.c:202-237 | the balance at the end, the dropped bytes and the delivered bytes from any loop head |
| Framing.WhatIsDelivered | jni/TestDemo/nalu.c:202-237 | the delivered bytes of any stream: a prefix, short by as many bytes as the non-slice units that follow a slice have |
| Framing.KeptIsAll | jni/TestDemo/nalu.c:202-237 | that prefix is the whole stream if and only if there is a slice and nothing is dropped |
| Framing.NothingLate | jni/TestDemo/nalu.c:209-219 | nothing is dropped if and only if no non-slice unit follows a slice |
| Framing.DeliversAll | jni/TestDemo/nalu.c:202-237 | the stream gets across whole if and only if it has a slice, of type 1 or 5, and every unit of another type comes before the first one |
| Framing.DeliversAllTypes | jni/TestDemo/nalu.c:202-237 | the same by the nal_unit_type of each unit, none of them empty |
| Framing.DeliveredIsFirsts | jni/TestDemo/nalu.c:224-232 | what is delivered is the frames sent for the first time |
| Framing.LoopCounts | jni/TestDemo/nalu.c:224-232 | every call carries the next frame number, or the last frame and its number once more |
| Framing.FirstsExplain | jni/TestDemo/nalu.c:224-232 | so equal numbers mean equal bytes |
| Framing.FirstsNumbered | jni/TestDemo/nalu.c:224-232 | and new frames are numbered 1, 2, 3 without a gap |
| Framing.FitsWhen | jni/TestDemo/nalu.c:198-226 | buffers that fit each unit plus 4 and each frame fit the run |
| Framing.GapThenSlice | jni/TestDemo/nalu.c:221-236 | a non-slice unit and a slice behind it, from any loop head |
| Framing.RepeatedParameterSet | jni/TestDemo/nalu.c:221-236 | the three calls made for parameter set, slice, parameter set, slice: the first frame twice under one number, then the last frame cut from the wrong place |
| Framing.LastFrameLost | jni/TestDemo/nalu.c:221-236 | a stream whose last frame is sent as a bare start code |
| Framing.KeyThenDependent | jni/TestDemo/nalu.c:209-236 | parameter set, key frame, dependent frame: two calls, numbers 1 and 2, kinds 5 and 1, and their bytes |
| Framing.SpsIdrP | jni/TestDemo/nalu.c:209-236 | one such stream, byte for byte |
| Framing.DeliversSecond | jni/TestDemo/nalu.c:221-229 | for any two streams, new frames are in order the bytes read from the second |
| Framing.NothingAfterTheEnd | jni/TestDemo/nalu.c:221-236 | once the second stream has ended, nothing is sent from the next slice on |
| TalkPacket.HeaderRoundTrip | jni/include/libqsa_common.h:131-144 | every header is read back as written |
| TalkPacket.ImageRoundTrip | jni/include/libqsa_common.h:131-144 | every 68 bytes are the image of the header they read as |
| TalkPacket.HeaderLayout | jni/include/libqsa_common.h:131-144 | the offset of each field of the packed struct |
| TalkPacket.HeaderBytes | jni/include/libqsa_common.h:131-144 | the fields byte by byte, low byte first |
| TalkPacket.KindByte | jni/include/libqsa_common.h:137 | byte 61 of a datagram is the data type, which the receiver tests there (jni/udp.c:929) |
| TalkPacket.DatagramReads | jni/talk.c:257-263 | head, header and body of a datagram are recovered from it |
| Fragments.SliceLength | jni/talk.c:311-331 | each fragment but the last is PackLen long, none is empty |
| Fragments.SlicesCover | jni/talk.c:304-332 | the slices in order are the frame |
| Fragments.DatalensSum | jni/talk.c:313-324 | the data lengths add up to the frame length |
| Fragments.CountersExact | jni/talk.c:304-323 | when the 16-bit package counters are exact and when they are distinct |
| Fragments.Coarsening | jni/talk.c:297-309 | fragment j at 2700 is fragments 2j-1 and 2j at 1350, and how many there are |
| Fragments.CutsAreFragments | jni/talk.c:311-332 | the sender's cuts are inside the frame and are the fragments |
| Fragments.FrameSays | jni/talk.c:311-332 | what a reader of the wire finds in the fragments of a frame: bytes in front, every header field, the piece of data |
| Fragments.Device.SendVideo | jni/talk.c:229-355 | as many datagrams as 2700 bytes each at status 5, 1350 otherwise, ask for, each with the nine bytes in front, type 2 for frame type 5 and 3 otherwise, time, number, counters, both parties and its piece of the frame; or the failure report |
| Fragments.SendFragments | jni/talk.c:311-332 | every datagram is head, header and slice, whatever the buffer held, in bounds |
| Fragments.Emit | jni/talk.c:316-321 | what is given to the socket after the two copies |
| Fragments.Device.SendAudio | jni/talk.c:360-449 | one datagram: "QIUSHI", 150, 1 at every status, 7 and both parties at status 5, otherwise what the stack held; header fields and PackLen in numbers, the data |
| Reassembly.PlaceFragment | jni/talk.c:313-332 | a fragment lands in its place and disturbs no other |
| Reassembly.Tracks | jni/talk.c:304-332 | after any traffic, also of the same frame cut to another size, the receiver's entry for a frame holds exactly the fragments that arrived, or goes by the other cut |
| Reassembly.Reassembles | jni/talk.c:304-332 | under any order, repetition and foreign traffic the frame comes out if and only if all its fragments arrived, unchanged |
| Reassembly.CutOf | jni/talk.c:297-309 | of the cuts a frame was sent in the receiver goes by the one whose datagram came first |
| Reassembly.Interleaved | jni/talk.c:270-309 | frames that differ in number modulo 65536, or in being audio, or are the same frame sent again under whatever packet size, can be mixed at will; by that cut the frame comes out if and only if all its fragments arrived |
| Reassembly.OneCutOnly | jni/talk.c:270-309 | a frame sent in one cut only comes out if and only if all its fragments arrived |
| Pipeline.FrameIsOnWire | jni/talk.c:270-309 | a frame of the loop's size has exact counters and its own key |
| Pipeline.FramesAreSeparate | jni/talk.c:270-309 | the frames of a run of the loop are not in each other's way |
| Pipeline.PlaysBack | jni/talk.c:297-332 | the receiver plays back the frames of a run, each once, under any status at each call |
| Pipeline.EndToEnd | jni/TestDemo/nalu.c:202-237 | any stream that starts on a start code, through frames and datagrams in any arrangement, is played back up to its last bytes, as many missing as its late non-slice units have |
| Pipeline.EndToEndWhole | jni/TestDemo/nalu.c:202-237 | it is played back whole if and only if it has a slice and none of its non-slice units comes later |
| Pipeline.EndToEndUnits | jni/TestDemo/nalu.c:202-237 | a printable unit list with that property is split out of it again |
| CallState.Supervisor.constructor | jni/init.c:83-95 | the line after start-up |
| CallState.BuildConfirm | jni/timer.c:105-119 | the CALLCONFIRM packet, 61 bytes written of the 62 sent, whatever the stack held |
| CallState.ConfirmReads | jni/timer.c:105-119 | every such packet begins with "QIUSHI", 150, 1, 9; both parties and the number, high byte first, are read back from it, and no request is |
| CallState.Supervisor.OnlineCheckFunc | jni/timer.c:79-127 | the new state of every field, what is sent and reported, in order, and the bytes of the datagram |
| CallState.Supervisor.TalkCtrlFunc | jni/timer.c:129-171 | likewise for the duration limits |
| CallState.Supervisor.TimerTick | jni/timer.c:62-67 | one turn of the timer thread, and the datagram it sends |
| CallRuns.TickEndsOnce | jni/timer.c:87-168 | when and why a tick ends a call: once, stop_talk first with the status live, then status 0, report, supervision off; and when it confirms, at statuses 2 and 6 only, with which number |
| CallRuns.CallEndSteps | jni/include/libqsa_common.h:94-105 | what a CALLEND from the peer does to the line and reports, for every status, request or reply (jni/udp.c:832-889) |
| CallRuns.CallSteps | jni/include/libqsa_common.h:94-105 | where an answer, a start of talking and an unanswered CALLEND leave every field (jni/udp.c:716-786, 891-916) |
| CallRuns.ConfirmSteps | jni/include/libqsa_common.h:94-105 | which confirmations are taken, by status and direction, and that nothing else changes (jni/udp.c:788-810) |
| CallRuns.StatusSteps | jni/include/libqsa_common.h:94-105 | a busy line and a found address touch the status alone (jni/udp.c:682-713, 674) |
| CallRuns.OnlyAnswersOpen | jni/include/libqsa_common.h:101-105 | supervision is switched on by an accepted answer only (jni/udp.c:735-741) |
| CallRuns.TimerReportsOnce | jni/timer.c:64-67 | over any run, no more end reports of the timer thread than calls |
| CallRuns.ReportsBalance | jni/timer.c:87-168 | end reports of all threads (also jni/udp.c:891-916), calls still live and calls forgotten add up to the calls there were and the stray reports |
| CallRuns.OneReportPerCall | jni/timer.c:87-168 | every end report has a call to end if and only if no CALLEND goes unanswered after the call is over (jni/udp.c:176-181); then no more reports than calls |
| CallRuns.ReportedTwice | jni/timer.c:87-97 | a run with two end reports for one call (jni/udp.c:915) |
| CallRuns.QuietAfterwards | jni/timer.c:64-67 | after the end the timer does nothing until the next answer |
| CallRuns.SilenceEnds | jni/timer.c:87-101 | under any interleaving, silent ticks use up a known number of ticks |
| CallRuns.DownMeansTornDown | jni/timer.c:87-168 | a live call that only the timer can end stays live and sends confirmations only, until one tick finds it live, calls stop_talk, clears the status, reports and switches supervision off; nothing follows |
| CallRuns.SilentPeerBound | jni/timer.c:87-101 | within 51 - Timer1Num ticks of silence supervision is over, and a live call has been torn down with one report |
| CallRuns.SilenceIsExact | jni/timer.c:87-126 | and not before: 26 - Timer1Num ticks, 25 more if a confirmation was pending |
| CallRuns.OfflineMeansEnded | jni/timer.c:87-97 | at every point of a run an unsupervised line has no live status, if and only if no step is an unmatched CALLEND reply met by a caller (jni/udp.c:857-862) or a live status set from outside while offline |
| CallRuns.UnmatchedReply | jni/timer.c:64-67 | after an unmatched CALLEND reply (jni/udp.c:857-862) no number of ticks ends the call or reports it |
| CallRuns.AttendedIsKept | jni/timer.c:87-101 | OnlineCheckFunc ends no call of a run if and only if, at every check that finds the call live, an answer or accepted confirmation came since the check before |
| CallRuns.OftenIsEnough | jni/timer.c:87-101 | a confirmation at least every 24 ticks is enough for that |
| CallRuns.ClockRuns | jni/timer.c:129-171 | TimeOut counts ticks and stays within two of the limit while the call is up |
| CallRuns.SessionBound | jni/timer.c:138-167 | without a restart of the clock, torn down with one report within 3603 ticks, or 503 if never talking |
| CallRuns.BudgetShrinks | jni/timer.c:129-171 | every tick uses up the ticks a call can still last, and no other step (jni/udp.c:679-889) but an answer adds to them |
| CallRuns.BudgetBound | jni/timer.c:62-76 | hence a bound over any interleaving of ticks and other threads' steps |
| CallRuns.NotBeforeTheLimit | jni/timer.c:144-163 | in any run, no duration limit strikes before tick 503 or 3603 of the clock |
| Cadence.TimerIsPhase | jni/timer.c:87-126 | Timer1Num is a function of the ticks alone, of period 25 |
| Cadence.KeepAlive | jni/timer.c:103-126 | while this side stays called, exactly the CALLCONFIRM packets the phase says, numbered without a gap |
| Cadence.NumberDecodes | jni/timer.c:114-118 | the big-endian field carries the number, for 32 bits of them |
| Cadence.Gaps | jni/timer.c:87-103 | packets are 4 ticks apart, 5 around a check |
| Cadence.SendsCounted | jni/timer.c:87-126 | how many packets any stretch of ticks sends |
| Cadence.SixPerCycle | jni/timer.c:87-126 | every 25 ticks send six packets |
| CallLength.CallBound | jni/timer.c:62-76 | from an accepted answer (jni/udp.c:735-741), under any interleaving of ticks and other threads' steps, supervision is over by tick 4151 |
| CallLength.BoundIsReached | jni/timer.c:62-76 | a call of 4150 ticks |
| ControlPackets.DecodeEncode | jni/talk.c:64-76 | one decoder inverts the four builders |
| ControlPackets.EncodeDecode | jni/talk.c:183-194 | and accepts nothing else |
| ControlPackets.RequestBytes | jni/talk.c:64-76 | every byte and offset of the packets in numbers (also jni/talk.c:114-134, 183-194, jni/udp.c:1000-1014) |
| ControlPackets.TiledStores | jni/talk.c:114-134 | stores that tile leave no old byte in their range and touch none behind it |
| ControlPackets.StoresTile | jni/talk.c:64-76 | the stores of each builder tile the packet's length and spell it |
| ControlPackets.BuiltPacket | jni/talk.c:129-134 | the packet in a slot does not depend on what the slot held |
| SendPool.FirstFree | jni/talk.c:52-53 | the slot a scan takes is free and all before it are valid |
| SendPool.PostedHolds | jni/talk.c:110-151 | the posted slot holds the packet, 5 sends to go, its delays and order, and no other slot changes |
| SendPool.DialIs | jni/talk.c:45-50 | the address called: 'S', the room at 7 to 10, the own address elsewhere |
| SendPool.Pool.constructor | jni/include/libqsa_common.h:192 | all slots free |
| SendPool.Pool.Write | jni/talk.c:64-74 | the stores, one after the other, into one slot |
| SendPool.Pool.Claim | jni/talk.c:54-79 | every field of the claimed slot, and the bytes sent |
| SendPool.Pool.Post | jni/talk.c:175-214 | the scan, the claim, or nothing when the pool is full |
| SendPool.Pool.StartCall | jni/talk.c:21-98 | peer, slots and datagram for each combination of flag, status and free slots |
| SendPool.Pool.StopTalk | jni/talk.c:100-155 | slots and datagram for each status |
| SendPool.Pool.FindIp | jni/talk.c:158-223 | peer, slots and datagram for each combination of address, status, flag and free slots |
| SlotRace.InvStep | jni/talk.c:34-93 | a step of any thread keeps the pool's invariant if and only if it is not a late one that finds its slot taken |
| SlotRace.SlotsAreSafe | jni/talk.c:110-153 | no two callers share a slot, nobody works on a valid one and valid ones hold whole packets, at every point of a run if and only if no early look (jni/udp.c:986-989) has gone stale when its caller gets the lock; so always when all look under the lock |
| SlotRace.FrozenUntilReleased | jni/talk.c:129-137 | nothing in a valid slot changes until it is released |
| SlotRace.OneClaimPerCall | jni/talk.c:169-216 | at most one slot is published for each time the lock is taken |
| SlotRace.FirstSeenFree | jni/talk.c:52-53 | with releases at any moment, the slot a scanning caller works on is free and each one before it is valid or was released meanwhile |
| SlotRace.GivesUpOnFull | jni/talk.c:52-53 | under any interleaving, a caller that leaves without a request has looked at all 50 slots and found each valid |
| SlotRace.SoloCall | jni/talk.c:34-93 | a call alone, from lock to unlock, does to the slots what the sequential pool says: first free one, or nothing if all are valid |
| SlotRace.ReleasedIsTaken | jni/talk.c:52-79 | on a full pool, the slot released is the one the next call takes |
| SlotRace.FillOn | jni/talk.c:64-76 | a caller that has begun to fill a slot can finish the packet |
| SlotRace.EarlyLookOverwrites | jni/talk.c:52-54 | for any two packets, a run in which the caller that looks for a free slot outside the lock, as ForceIFrame_Func does (jni/udp.c:986-1022), overwrites a valid one |

## Left out

- Framing.WhatIsDelivered: starts with the static `ts_length` at 0; a run that ends on non-slice units before any slice leaves it positive for the next call of `user_main`, which `FrameLoop.Demo.UserMain` states but no theorem follows up.
- FrameLoop.Demo.UserMain: `ts_length` is unbounded here; on a stream that starts on a start code it never exceeds the length of the file, so the C int suffices for files below 2 GB.
- Fragments.Device.SendVideo: the delay loop that counts up from 20000 (`jni/talk.c:341`) and all other delays are skipped.
- Fragments.Device.SendAudio: length is at most 1523, what the 1600-byte buffer holds; the C code does not check.
- SendPool.Pool.FindIp: the address must have 20 readable bytes, as the copy into `remote_info` reads that many, although a room number of four digits is documented.
- SlotRace.SlotsAreSafe: what a caller reads from `remote_info` under the lock is fixed when it takes the lock; of the callers that look early, `SendFreeArp` and `send_info` are left out: the one stores no packet, the other never locks.
- CallLength.CallBound: a tick is one step, so no other thread runs between `OnlineCheckFunc` and `TalkCtrlFunc`.
- CallRuns.OneReportPerCall: of the reports only those that end a call count; CB_CALL_OK, CB_TALK_OK, CB_CALL_BUSY and CB_CALL_FAIL are left out.
- CallState.Supervisor.OnlineCheckFunc: that `stop_talk` may find no free slot is in `SendPool`; here it is one effect.
- GetAnnexbNALU, ReadPrefix and ScanUnit are one C function; so are ScanPhase, FetchPhase, EmitPhase and SendFrames, the loop of `user_main`.
- Sockets, `inet_addr`, host name strings, ports, semaphores and thread creation: sends are results, addresses are bytes.
- Of `jni/udp.c`: parsing of received packets, replies and callbacks; its steps on the shared call state are in `CallState`, its releases of slots are `Release`. The retry thread is modelled although `init_udp_task` does not start it (`jni/udp.c:80`).
- `send_info`: it sends one byte less than it wrote and writes outside the address row it means. `ForceIFrame_Func` outside a call, where byte 6 of the packet goes out as the slot had it.
- Byte order is the little-endian one `jni/udp.c:929` relies on.
- Callback registration, start-up code, logging, the demo's menus, sound and ARP: plumbing.
