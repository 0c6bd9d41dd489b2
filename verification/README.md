# Verified model of the diagnostic stack

Dafny model of the hardware-independent part of a small automotive network: a sensor ECU, a control ECU and a
diagnostic tester on CAN. The models follow the C and C++ sources branch by branch; the theorems are about all
inputs, all runs and all interleavings. `dafny verify dfyconfig.toml` checks the whole project.

How the files fit together:

- `Words.dfy`, `Arith.dfy`: fixed-width words (wrap-around is written out as `% 2^n`) and a few arithmetic facts.
- **ISO-TP** (`common/isotp`). `IsoTpModel.dfy` states every atomic action of a link's sender and receiver half as a
  function; `IsoTpLink.dfy` is the C object, with its fields and buffers updated in place, one method per C function,
  proved to perform exactly these actions, whatever the driver and the clock answer. On top: `IsoTpSender.dfy` and
  `IsoTpReceiver.dfy` (one link against any peer), `IsoTpFlow.dfy` and `IsoTpWire.dfy` (flow control and frames in the
  numbers of the standard), `IsoTpHistory.dfy` (the same for every link object), `IsoTpSession.dfy`,
  `IsoTpProgress.dfy`, `IsoTpCost.dfy` (one direction over FIFO channels), `IsoTpPair.dfy` (both directions at once),
  `IsoTpChannel.dfy`, `IsoTpLossy.dfy`, `IsoTpFirstFrames.dfy`, `IsoTpMixing.dfy` and `IsoTpStale.dfy` (losses and
  timeouts), `IsoTpTiming.dfy` and `IsoTpDeadline.dfy` (real time).
- **Trouble codes** (`common/dtc`). `Dtc.dfy`: the status byte as a function of history; `DtcManager.dfy`: the table.
- **End-to-end protection** (`common/e2e`). `Crc.dfy`, `CrcErrors.dfy`, `CrcBursts.dfy`: polynomial division over
  GF(2), the bit loop, undetected errors; `E2e.dfy`: sender, receiver, and the receiver over a stream.
- **Safe state** (`control_ecu/.../control_app.c`). `Control.dfy`: runs of the receive path and the monitor;
  `ControlApp.dfy`: both as methods over the shared view; `ControlCodes.dfy`: from the monitor's faults to the
  confirmed codes at the tester.
- **Diagnostics**. `UdsModel.dfy` (verdicts on requests), `UdsServer.dfy` (the server object), `UdsClient.dfy` (the
  C++ client), `UdsRoundTrip.dfy` (client against server), `UdsWire.dfy` (both sides byte by byte), `DiagApp.dfy`
  (server object and link object together), `UdsExchange.dfy` (client and server over two links), `Diagnosis.dfy`
  (from monitor reports to the codes the client shows), `DiagTimeline.dfy` (both together with monitors, cycles and
  clears), `DiagReset.dfy` (runs of requests, responses over the ISO-TP sender, and the deferred reset),
  `DiagSession.dfy` (the S3 timer over these runs).
- **Interrupt ring** (`sensor_ecu/.../tester_app.c`). `Ring.dfy`: all interleavings of single memory accesses;
  `RingDrain.dfy`: handler and drain loop over the array.

The CAN driver is "takes the frame or refuses it", the clock any 32-bit value; both may answer differently at every
call. A callback of a link is an entry in a ghost sequence, in the order of the calls.

Where the code and its documentation differ, the model follows the code:

- `control_app.c` announces that an end-to-end error is healed after 10 good frames; the code clears it with the 11th
  (`Control.HealsOnTheEleventh`). Its comment that the output keeps the last good value holds for the view only: while
  the error is set the output is 0 (`Control.DriveIsJustified`).
- `uds_server.h` lists the negative response codes without 0x14 (response too long), which the code returns.
- The status byte can report testFailed without pendingDTC: one failure and two cycle starts
  (`Dtc.FailedWithoutPending`); `failCount` survives a cycle start.
- `RxFinish` leaves a pending flow control frame in place. If the first frame of the next message is lost as well, this
  continue-to-send releases the sender into the old reception, and one Ok indication can hold bytes of two messages
  (`IsoTpStale.TwoTransfersCanMix`). The exact condition, for every block size, is an open reception with enough old
  continue-to-sends queued or pending: one if BS = 0, otherwise as many as `IsoTpLossy.Enough` says
  (`IsoTpMixing.MixesExactly`). From any other state with idle sender and empty channel a transfer is safe under any losses
  and timeouts (`IsoTpLossy.OnlyTheMessage`); timeouts and losses of other frames alone never cause a false Ok
  (`IsoTpFirstFrames.IndicationsAreMessages`).
- `diag_app.c` announces a reset only after its response is on the bus. That holds for every response the link takes
  (`DiagReset.ResetAfterResponse`); a suppressed response, or one that meets a busy link, leaves the reset to the next
  Ok confirmation (`DiagReset.ResetsAreAnswers`, `DiagReset.BusyLinkLosesResponse`).

## Model

| member | source | states |
|---|---|---|
| IsoTpModel.Loaded | common/isotp/isotp.c:377-381 | an accepted Transmit puts exactly the message into the front of the buffer, keeps the buffer's size, and leaves the sender in SEND_FIRST with that message |
| IsoTpModel.TxFirst | common/isotp/isotp.c:81-113 | trying the single or first frame keeps the sender's invariant and its buffer, whether the driver takes the frame or not |
| IsoTpModel.Advance | common/isotp/isotp.c:143-145 | after a consecutive frame the position is at most the length, and while bytes are left it is a frame boundary whose sequence number is (offset - 6) / 7 + 1 modulo 16 |
| IsoTpModel.TxCf | common/isotp/isotp.c:115-165 | a round of the sending loop keeps the sender's invariant (position, sequence number, block credit below BS) and its buffer |
| IsoTpModel.TxFc | common/isotp/isotp.c:167-209 | a flow control frame that is not awaited or too short changes nothing; a continue-to-send starts SEND_CF, one of up to ten FC.WAIT keeps WAIT_FC without a confirmation, and only the eleventh, an overflow or an unknown status ends the transfer; the invariant and the buffer are kept |
| IsoTpModel.TxStep | common/isotp/isotp.c:413-454 | every action of the sender keeps the invariant: 6 <= offset < length while streaming, aligned position, matching sequence number, credit below BS, at most 10 FC.WAIT |
| IsoTpModel.AsmStep | common/isotp/isotp.c:387-411 | any received frame keeps 6 <= rxOffset < rxLength <= rxBufferSize while receiving, stays inside the buffer, and asks for no flow control other than CTS or OVFLW |
| IsoTpModel.RxStep | common/isotp/isotp.c:225-340 | the same for every action of the receiver, with its timer and pending flow control |
| IsoTpSender.PadShape | common/isotp/isotp.c:46-53 | an emitted frame has 8 bytes, starts with what was put in and is filled with 0xCC |
| IsoTpSender.SegmentLength | common/isotp/isotp.c:122-123 | a message longer than 7 bytes takes one first frame and ceil((n - 6) / 7) consecutive frames |
| IsoTpSender.TransmitStep | common/isotp/isotp.c:365-385 | Transmit from idle: the first frame of the segmentation goes out if the driver takes it; a single frame is confirmed at once, a longer message waits for flow control; otherwise nothing leaves |
| IsoTpSender.FirstStep | common/isotp/isotp.c:81-113 | the bytes of a single or first frame are those of the bus format, and the sender is confirmed or waits for flow control accordingly |
| IsoTpSender.CfBytes | common/isotp/isotp.c:120-136 | the frame the loop builds from offset and sequence number is the frame of the segmentation that is due |
| IsoTpSender.CfStep | common/isotp/isotp.c:115-165 | a round of the loop either changes nothing (STmin or driver) or sends exactly the frame that is due; Ok is confirmed exactly with the last one |
| IsoTpSender.BusyStep | common/isotp/isotp.c:81-209 | one step of a busy sender, whatever the peer sends: at most one frame leaves, it is the next of the segmentation, the message in the buffer is unchanged, and a confirmation comes exactly when the sender goes idle, Ok exactly after the last frame |
| IsoTpSender.IdleStep | common/isotp/isotp.c:413-454 | an idle sender that is given nothing sends nothing and stays unchanged |
| IsoTpSender.RunInv | common/isotp/isotp.c:71-209 | the bookkeeping invariant of the sender holds after every run |
| IsoTpSender.SenderFollowsMessages | common/isotp/isotp.c:71-209 | over every run against any peer: accepted messages = confirmations + 1 if busy; the frames sent for each message are a prefix of its segmentation, all of them exactly when the confirmation is Ok; while busy the buffer holds the accepted message |
| IsoTpSender.BlockLimit | common/isotp/isotp.c:151-159 | with BS > 0 at most BS consecutive frames leave per continue-to-send |
| IsoTpReceiver.BeginStep | common/isotp/isotp.c:245-293 | a single or first frame that is taken: first the bytes so far of an interrupted message with ErrUnexpPdu, then Ok for a single frame, or for a first frame an opened reception with its length, its six bytes, block count 0, a restarted N_Cr and a continue-to-send; nothing else |
| IsoTpReceiver.ContinueStep | common/isotp/isotp.c:295-340 | an in-sequence consecutive frame extends the open reception or completes it with exactly the announced bytes |
| IsoTpReceiver.OtherStep | common/isotp/isotp.c:245-340 | every other frame: an out-of-sequence consecutive frame ends the open reception, the bytes so far being indicated with ErrWrongSn, and asks for nothing; a first frame that does not fit ends it with ErrUnexpPdu and asks for status 2; all the rest changes nothing at all |
| IsoTpReceiver.DataOut | common/isotp/isotp.c:387-411 | clock and driver have no influence on the reassembly |
| IsoTpReceiver.RunInv | common/isotp/isotp.c:214-340 | the bookkeeping invariant of the receiver holds after every run |
| IsoTpReceiver.IndicationsAreReassemblies | common/isotp/isotp.c:214-340 | over every sequence of received frames and timeouts: each Ok indication is the reassembly of one single frame, or of one first frame and exactly its in-sequence consecutive frames; accepted SFs and FFs = indications + 1 if receiving; the position stays inside the buffer |
| IsoTpFlow.WaitsAreTolerated | common/isotp/isotp.c:189-201 | over runs of a sender that awaits flow control: up to ten FC.WAIT, with N_Bs checks in time, short frames, polls and refused Transmits in between, leave message, position, frames and confirmations as they were; the count is theirs and N_Bs runs from the last one |
| IsoTpFlow.AfterWaits | common/isotp/isotp.c:167-209 | what can follow n <= 10 FC.WAIT: status 0 loads BS and STmin and starts SEND_CF with no wait counted; the eleventh FC.WAIT ends with ErrWftOvrn, status 2 with ErrOverflow, 3 to 15 with ErrInvalidFs, N_Bs since the last FC.WAIT with ErrTimeoutBs, each one confirmation; everything else changes nothing |
| IsoTpFlow.FlowControlOutOfPlace | common/isotp/isotp.c:169-173 | a flow control frame outside WAIT_FC changes nothing |
| IsoTpFlow.FirstFrameRetry | common/isotp/isotp.c:433-441 | a refused first frame is tried again unchanged until the driver takes it or N_Bs has passed since Transmit, which is confirmed as ErrTimeoutBs |
| IsoTpFlow.TransmitAnswers | common/isotp/isotp.c:365-385 | ErrParam for 0 bytes, more than 4095 or more than the buffer holds, also when busy; otherwise ErrBusy when busy; then nothing changes. Otherwise Ok: the first frame is out, or waits from now on with the message in the buffer |
| IsoTpWire.SingleFrameBytes | common/isotp/isotp.c:83-92 | the single frame byte by byte: length, message, 0xCC |
| IsoTpWire.FirstFrameBytes | common/isotp/isotp.c:83-101 | the first frame: 0x1000 plus the length in two bytes, then six bytes; floor(n / 7) consecutive frames follow |
| IsoTpWire.ConsecutiveFrameBytes | common/isotp/isotp.c:120-136 | the k-th consecutive frame byte by byte: 0x20 + k modulo 16, message bytes 7k - 1 to 7k + 5, 0xCC behind the last |
| IsoTpWire.FlowControlBytes | common/isotp/isotp.c:225-232 | the flow control frame: 0x30 + status, BS, STmin, 0xCC |
| IsoTpWire.CalledIs | common/isotp/isotp.c:245-335 | which flow control a received frame calls for: 0 for a first frame that fits and for a full block, 2 for a first frame that does not fit, none for anything else |
| IsoTpWire.FlowControlAnswers | common/isotp/isotp.c:225-240 | over every run of received frames, refusals and retries: the frames sent answer the calls in order, each at most once, with its own status and the configured BS and STmin; the latest call has been answered or is still pending with its status |
| IsoTpWire.AllAnswered | common/isotp/isotp.c:225-240 | with a driver that takes every frame each call is answered exactly once |
| IsoTpWire.ReceptionTimesOut | common/isotp/isotp.c:425-429 | an open reception ends with ErrTimeoutCr and the bytes so far exactly when N_Cr has passed |
| IsoTpWire.TimerRestarts | common/isotp/isotp.c:281-317 | N_Cr restarts with a first frame that is taken and with every stored consecutive frame, and with nothing else |
| IsoTpSession.InvStep | common/isotp/isotp.c:115-165 | one direction, no timeout: the receiver that has consumed everything in flight agrees with the sender, and exactly one flow control frame is queued, pending or still to be caused while the sender waits |
| IsoTpProgress.StepLowers | common/isotp/isotp.c:413-454 | every action that moves a frame lowers the measure, no other raises it |
| IsoTpProgress.NoDeadlock | common/isotp/isotp.c:413-454 | while anything is under way, some action moves a frame and fires no timeout |
| IsoTpProgress.Settled | common/isotp/isotp.c:115-340 | when nothing is under way, exactly the accepted messages have been indicated, in order |
| IsoTpProgress.Completes | common/isotp/isotp.c:413-454 | every reachable conversation can be completed within the measure |
| IsoTpCost.ExactCost | common/isotp/isotp.c:318-335 | once nothing is under way, the frames on the bus are exactly 1 FF + ceil((n - 6) / 7) CF and 1 + floor((nCF - 1) / BS) FC (1 if BS = 0) per long message, 1 SF per short one |
| IsoTpCost.LargestMessageCost | docs/course/content/09_advanced_quality_bringup_capstone.js:27 | 4095 bytes at BS 8 take 1 FF, 585 CF and 74 FC, 660 frames |
| IsoTpPair.SendIsSession | common/isotp/isotp.c:365-385 | a call of one end of the full-duplex pair is a step of the two single-direction conversations |
| IsoTpPair.PollIsSession | common/isotp/isotp.c:413-454 | the receiver half of the periodic call likewise |
| IsoTpPair.TakeDataIsSession | common/isotp/isotp.c:387-411 | a received data frame goes to the reassembly only, whatever is queued behind it |
| IsoTpPair.TakeFcIsSession | common/isotp/isotp.c:405-407 | a received flow control frame goes to the sender only |
| IsoTpPair.RunInv | common/isotp/isotp.c:365-454 | the invariant of both directions holds after every run without timeouts |
| IsoTpPair.PrefixDelivery | common/isotp/isotp.c:115-340 | both directions active at once, any interleaving, driver refusals, BS and STmin, no timeout: what either application is told is a prefix of what the other one sent |
| IsoTpPair.StepLowers | common/isotp/isotp.c:413-454 | every action but a new message lowers the measure of the pair if it moves a frame, and never raises it |
| IsoTpPair.NoDeadlock | common/isotp/isotp.c:413-454 | while a sender of the pair is busy or a frame is under way, some action moves a frame without a timeout |
| IsoTpPair.Completes | common/isotp/isotp.c:413-454 | from every reachable state both ends can finish what they started, at exactly its cost in frames |
| IsoTpPair.EveryRunCanFinish | common/isotp/isotp.c:413-454 | the same for every run from two idle links |
| IsoTpPair.LargestMessage | docs/course/content/09_advanced_quality_bringup_capstone.js:27 | a finished 4095-byte transfer at BS 8 has put 660 frames on the bus in all |
| IsoTpLossy.OnlyTheMessage | common/isotp/isotp.c:295-340 | every transfer of a conversation that starts from an idle sender and an empty data channel, with no reception open, or one that the old continue-to-sends cannot complete; then any losses in both directions and any timeouts: an Ok indication carries exactly the transmitted message, and there is at most one, although sequence numbers repeat after 16 losses |
| IsoTpLossy.OldTakes | common/isotp/isotp.c:295-340 | a frame of a new message that an old reception takes: without enough old continue-to-sends it completes neither the block nor the reception, so no Ok and no new continue-to-send comes of it |
| IsoTpLossy.CfDelivered | common/isotp/isotp.c:295-340 | whichever consecutive frame arrives, after any losses: the receiver has never stored more frames than went by, holds the message so far if it stored them all, and indicates Ok only for the last frame and with exactly the message |
| IsoTpChannel.AlwaysReachable | common/isotp/isotp.c:214-340 | in every state two links can get into, with any losses and timeouts: an open reception stands at a frame boundary with the sequence number due there and a block count below BS, it is no longer than the sender's buffer, and all flow control in flight is the receiver's own |
| IsoTpMixing.MixesExactly | common/isotp/isotp.c:214-223 | in every such state with an idle sender and an empty data channel, for every block size: some message and some losses make the receiver indicate Ok for other bytes exactly if a reception is open and enough old continue-to-sends are queued or pending; enough is one for BS 0, otherwise a comparison of sequence number, block count and missing frames with BS times their number |
| IsoTpStale.TwoTransfersCanMix | common/isotp/isotp.c:214-223 | a concrete run: a first frame is lost while RxFinish has left rxFcPending set, and one Ok indication holds bytes of two messages |
| IsoTpFirstFrames.IndicationsAreMessages | common/isotp/isotp.c:265-340 | any number of messages, any timeouts on both sides, any losses of single, consecutive and flow control frames: if no first frame is lost, the Ok indications are accepted messages, in order and each at most once |
| IsoTpTiming.DecodeCovers | common/isotp/isotp.c:55-66 | the decoded STmin is at least the requested time, and less than 1 ms more |
| IsoTpTiming.ElapsedIsReal | common/isotp/isotp.c:36-39 | an elapsed time above ms on the wrapping 32-bit clock means more than ms of real time |
| Words.ElapsedAcrossWrap | common/isotp/isotp.c:36-39 | on the wrapping clock every time below 2^32 ticks is measured exactly |
| IsoTpTiming.SeparationTime | common/isotp/isotp.c:125-145 | in every run from an idle sender, with any calls (refused Transmits included) and flow control in between: two consecutive frames of one block leave strictly more than the decoded STmin byte of its continue-to-send apart, and so more than the requested time, for any number of clock wraps |
| IsoTpTiming.RefusedTransmitKeepsBlock | common/isotp/isotp.c:365-375 | a Transmit that meets a busy sender changes nothing the measurement uses: the frames around it are still a pair of one block |
| IsoTpTiming.CtsSetsStMin | common/isotp/isotp.c:181-187 | nothing but a continue-to-send starts a block, and its STmin byte is the one in force |
| IsoTpTiming.FirstCfEligible | common/isotp/isotp.c:183-187 | the first consecutive frame after a continue-to-send need not wait |
| IsoTpTiming.WeakerTestIsShort | common/isotp/isotp.c:125-128 | a test with >= would let a frame through after less than STmin, for every STmin |
| IsoTpTiming.NoWaitsInBlock | common/isotp/isotp.c:181-201 | whenever consecutive frames are being sent no FC.WAIT is counted, so every wait for flow control starts with the full allowance |
| IsoTpTiming.InWaitFc | common/isotp/isotp.c:167-209 | WAIT_FC is entered with a fresh timer and no FC.WAIT counted, and only a counted FC.WAIT restarts the timer |
| IsoTpTiming.BoundedWait | common/isotp/isotp.c:433-446 | in every run from an idle sender, with any calls, any flow control and any driver answers: with a periodic call at least every P ms the sender is in SEND_FIRST for at most N_Bs + P, and in WAIT_FC for at most 11 * (N_Bs + P), even under FC.WAIT flooding |
| IsoTpDeadline.InTime | common/isotp/isotp.c:413-454 | one clock, periodic call at least every p ms, frames delivered within d ms, drivers that accept: if 2d is below N_Bs and N_Cr and STmin + p + d below N_Cr, then in every run of any message, BS and STmin no timeout fires, and after d + 2d per continue-to-send + (STmin + p) per other consecutive frame (0 without STmin) the message has been indicated and the sender is idle |
| IsoTpDeadline.TimeGoesOn | common/isotp/isotp.c:413-454 | every such run can be continued to any later time, so the message does arrive |
| IsoTpDeadline.BurstRuns | common/isotp/isotp.c:115-165 | the whole sending loop at one instant: one frame with a separation time, otherwise everything up to the end of the block or message |
| IsoTpDeadline.RxNext | common/isotp/isotp.c:295-340 | in sequence each consecutive frame is stored, re-arms N_Cr, and asks for a continue-to-send exactly at the end of a block; the last one indicates the message |
| IsoTpDeadline.SendTimeIs | common/isotp/isotp.c:151-159 | the send times add up to 2d per continue-to-send, of which there is one for the first frame and one for every full block, and one gap per other frame |
| IsoTpTiming.HearStep | common/isotp/isotp.c:425-429 | at a check an open reception is kept exactly while less than N_Cr has passed since the last stored frame |
| IsoTpTiming.ReceptionIsFresh | common/isotp/isotp.c:413-429 | with a periodic call at least every P ms, whatever frames arrive, an open reception has stored a frame at most N_Cr + P ago |
| IsoTpLink.CopyIn | common/isotp/isotp.c:245-263 | the copied bytes are in place and no other byte of the buffer has changed |
| IsoTpLink.Link.constructor | common/isotp/isotp.c:345-363 | the link starts idle with the caller's buffers; zero timeouts mean 1000 ms |
| IsoTpLink.Link.TxFinish | common/isotp/isotp.c:71-78 | the sender goes idle and confirms exactly the given result |
| IsoTpLink.Link.TxSendFirst | common/isotp/isotp.c:81-113 | buffer, fields, bus and confirmations are those of TxFirst for the driver's answer |
| IsoTpLink.Link.TxSendOne | common/isotp/isotp.c:121-162 | one round of the loop is one Cf action; it goes on exactly when the frame left, and then the position has moved |
| IsoTpLink.Link.TxSendConsecutiveFrames | common/isotp/isotp.c:115-165 | the whole loop is a list of Cf actions, all but the last of which sent a frame |
| IsoTpLink.Link.TxOnFlowControl | common/isotp/isotp.c:167-209 | the frame is one Fc action, followed by the loop exactly for an accepted continue-to-send |
| IsoTpLink.Link.RxFinish | common/isotp/isotp.c:214-223 | the reception is closed and exactly one indication is made, with the whole message or with what arrived so far |
| IsoTpLink.Link.RxSendFlowControl | common/isotp/isotp.c:225-240 | the flow control frame is sent or kept pending, as SendFc says |
| IsoTpLink.Link.RxOnSingleFrame | common/isotp/isotp.c:245-263 | fields, buffer and indications are those of OnSingleFrame |
| IsoTpLink.Link.RxTakeFirst | common/isotp/isotp.c:265-293 | fields, buffer and indications are those of OnFirstFrame, up to the flow control frame it calls for |
| IsoTpLink.Link.RxTakeConsecutive | common/isotp/isotp.c:295-340 | fields, buffer and indications are those of OnConsecutiveFrame, up to the flow control frame it calls for |
| IsoTpLink.Link.RxOnData | common/isotp/isotp.c:387-411 | a received data frame is one Data action of the receiver half |
| IsoTpLink.Link.Transmit | common/isotp/isotp.c:365-385 | the result is ErrParam, ErrBusy or Ok as the code decides; an accepted message is one Transmit action, a refused one changes nothing; the receiver half is untouched |
| IsoTpLink.Link.RxFrame | common/isotp/isotp.c:387-411 | flow control goes to the sender half, data to the receiver half, impossible lengths and reserved types change nothing |
| IsoTpLink.Link.IsTxBusy | common/isotp/isotp.c:456-459 | true exactly while the sender is not idle |
| IsoTpLink.Link.MainFunction | common/isotp/isotp.c:413-454 | first the pending flow control, then N_Cr, then the sender: exactly these actions and no others |
| IsoTpLink.InitFrame | common/isotp/isotp.c:46-53 | a new frame holds the first byte, the payload and 0xCC behind it |
| IsoTpLink.Link.TxSend | common/isotp/isotp.c:41-44 | the frame is on the bus exactly if the driver took it |
| IsoTpLink.Link.FirstFrameBytes | common/isotp/isotp.c:83-101 | the buffer built holds the bytes of the single or first frame |
| IsoTpLink.Link.FirstAccepted | common/isotp/isotp.c:95-111 | the fields after an accepted single or first frame |
| IsoTpLink.Link.CfBytes | common/isotp/isotp.c:134-136 | the buffer built holds sequence number, payload and padding of the consecutive frame |
| IsoTpLink.Link.TxAfterCf | common/isotp/isotp.c:147-163 | confirmation, block credit and timer after an accepted consecutive frame |
| IsoTpLink.Link.CfAccepted | common/isotp/isotp.c:143-163 | position, sequence number, time stamp and block credit after an accepted consecutive frame; Ok exactly if the message is complete |
| IsoTpLink.Link.TxContinue | common/isotp/isotp.c:181-187 | after a continue-to-send: SEND_CF with its BS, no credit used and no wait counted, and the fields of TxFc |
| IsoTpLink.Link.TxHold | common/isotp/isotp.c:190-208 | up to ten FC.WAIT each keep WAIT_FC, are counted and restart the timer without a confirmation; the eleventh ends with ErrWftOvrn, status 2 with ErrOverflow, any other with ErrInvalidFs |
| IsoTpLink.Link.TxFlowStatus | common/isotp/isotp.c:167-209 | the flow control frame is one Fc action; consecutive frames follow exactly for a CTS in WAIT_FC with at least three bytes |
| IsoTpLink.Link.RxWhole | common/isotp/isotp.c:255-262 | the stores and indications of a single frame that is taken |
| IsoTpLink.Link.RxOpen | common/isotp/isotp.c:274-291 | the stores and indications of a first frame that fits |
| IsoTpLink.Link.RxBlockEnd | common/isotp/isotp.c:323-339 | after a stored consecutive frame: the Ok indication, or the block count and the flow control it calls for |
| IsoTpLink.Link.RxReassemble | common/isotp/isotp.c:387-404 | the reassembly fields and indications are those of AsmStep for every frame and length |
| IsoTpLink.Link.Store | common/isotp/isotp.c:377-382 | the message is in the buffer and the sender ready for its first frame, as Loaded says |
| IsoTpLink.Link.Load | common/isotp/isotp.c:377-383 | the accepting part of Transmit is one Transmit action |
| IsoTpLink.Link.RxFrameData | common/isotp/isotp.c:394-404 | a data frame is one action of the receiver half; the sender half is untouched |
| IsoTpLink.Link.RxFrameFc | common/isotp/isotp.c:405-407 | a flow control frame is an action of the sender half; the receiver half is untouched |
| IsoTpLink.Link.RxRetry | common/isotp/isotp.c:421-424 | a pending flow control frame is retried, once |
| IsoTpLink.Link.RxTimer | common/isotp/isotp.c:425-429 | an open reception is given up exactly when N_Cr has passed |
| IsoTpLink.Link.TxPoll | common/isotp/isotp.c:432-453 | the sender's part of the periodic call, by state |
| IsoTpHistory.SentHistory | common/isotp/isotp.c:71-209 | for every link object at any time: the frames on the bus are, message by message, prefixes of the segmentations of the accepted messages, with one confirmation each |
| IsoTpHistory.ReceivedHistory | common/isotp/isotp.c:214-340 | for every link object at any time: each Ok indication is a reassembly of frames that arrived, and indications account for all accepted SFs and FFs |
| Dtc.ReportBits | common/dtc/dtc_manager.c:80-97 | the effect of one report on each of the eight bits |
| Dtc.CycleBits | common/dtc/dtc_manager.c:109-116 | the effect of a new operation cycle on each bit; the counter survives |
| Dtc.CurrentRunStretch | common/dtc/dtc_manager.c:85-97 | the running count of failures is the longest stretch without a passed report that reaches the present |
| Dtc.StatusMeaning | common/dtc/dtc_manager.c:65-126 | every bit and the counter are a function of the events since the last clear: TF last report failed, TFTOC failed this cycle, PDTC failed this or the previous cycle, CDTC some run of at least the threshold of failures without a pass (runs cross cycle starts), TFSLC, TNCSLC, TNCTOC, WIR never; the saturating counter is exact for every threshold |
| Dtc.FailedWithoutPending | common/dtc/dtc_manager.c:111-116 | one failure and two cycle starts leave testFailed without pendingDTC |
| Dtc.FailuresInARow | common/dtc/dtc_manager.c:85-97 | k failures in a row hold a run of n failures exactly if k >= n |
| DtcManager.MatchesAnyBit | common/dtc/dtc_manager.c:156-156 | a code matches exactly if one of the bits 0x01 to 0x40 is set both in its status and in the mask |
| DtcManager.MatchPrefix | common/dtc/dtc_manager.c:162-188 | the records of the first entries come first: a limited copy is a prefix of the full list |
| DtcManager.Manager.ResetAll | common/dtc/dtc_manager.c:40-47 | all entries are as at power-up and all histories empty |
| DtcManager.Manager.Init | common/dtc/dtc_manager.c:49-63 | an empty or too long table is refused and changes nothing; otherwise the table is installed and reset |
| DtcManager.Manager.Update | common/dtc/dtc_manager.c:75-97 | in place, exactly the entry named changes, as Report says |
| DtcManager.Manager.ReportResult | common/dtc/dtc_manager.c:65-99 | one event is added to the history of exactly the named code, and the entries stay what the histories make them (Valid), so that TableMeaning says what each status byte then is; an index outside the table changes nothing |
| DtcManager.Manager.StartOperationCycle | common/dtc/dtc_manager.c:102-119 | a cycle start is added to every history, as the timeline of DiagTimeline has it |
| DtcManager.Manager.ClearAll | common/dtc/dtc_manager.c:121-126 | all histories are empty again |
| DtcManager.Manager.GetStatus | common/dtc/dtc_manager.c:133-144 | the status byte, or 0 outside the table |
| DtcManager.Manager.TableMeaning | common/dtc/dtc_manager.c:65-126 | in every valid table every status byte has the meaning of StatusMeaning for the history of its code and for the threshold of its own table entry, 0 counting as 1 |
| DtcManager.Manager.ConfirmedMeaning | common/dtc/dtc_manager.c:77-95 | bit 0x08 is set exactly if some stretch of the history without a pass holds confirmThreshold failures, 0 counting as 1 |
| DtcManager.Manager.ConfirmedAfterFailures | common/dtc/dtc_manager.c:77-95 | a code that has only failed since the last clear, k times, is confirmed exactly if k reaches its own confirmThreshold and is not 0 |
| DtcManager.Manager.CountByStatusMask | common/dtc/dtc_manager.c:146-160 | the loop counts the matching entries |
| DtcManager.Manager.GetByStatusMask | common/dtc/dtc_manager.c:162-188 | the first maxRecords matching records are written, in table order, and nothing else in the buffer changes |
| Crc.DivisionExists | common/e2e/crc8.c:25-33 | the remainder computed step by step belongs to a division by x^8 + x^4 + x^3 + x^2 + 1 |
| Crc.DivisionUnique | common/e2e/crc8.c:25-33 | division by the generator has exactly one quotient and remainder of degree below 8; the step-by-step one is it |
| CrcErrors.RemXor | common/e2e/crc8.c:22-33 | remainders are linear over GF(2) |
| CrcErrors.RawNext | common/e2e/crc8.c:20-34 | one turn of the outer loop extends the message by eight coefficients |
| CrcErrors.Crc8 | common/e2e/crc8.c:11-37 | for every length the bit loop returns the remainder of the message times x^8 with its first eight coefficients inverted, inverted |
| CrcErrors.PassesByRemainder | common/e2e/crc8.c:11-37 | damage to a checked message passes the check exactly when its error polynomial leaves no remainder |
| CrcErrors.Undetected | common/e2e/crc8.c:11-37 | damage passes the check exactly when it is a multiple of the generator polynomial |
| CrcBursts.BurstDetected | common/e2e/crc8.c:11-37 | every burst of at most eight bits is detected, in a message of any length |
| CrcBursts.Order255 | common/e2e/crc8.c:7-7 | x^k is 1 modulo the generator exactly when 255 divides k |
| CrcBursts.TwoBitsMissed | common/e2e/crc8.c:11-37 | two flipped bits pass exactly when their distance is a multiple of 255 |
| CrcBursts.FrameErrorsDetected | common/e2e/e2e.c:42-46 | every one- or two-bit error in a protected eight-byte frame is detected |
| CrcBursts.CheckValue | tests/test_e2e.c:27-27 | the ASCII digits 1 to 9 have check value 0x4B |
| CrcBursts.ZerosAreNotIntact | common/e2e/crc8.c:7-37 | an empty message has check value 0, seven zero bytes 0x0A, so eight zero bytes are not an intact frame |
| E2e.ProtectedIsIntact | common/e2e/e2e.c:18-20 | a protected frame holds the six payload bytes unchanged, the counter modulo 16 in byte 6 and the check value of the first seven bytes in byte 7, and passes the check |
| E2e.Protect | common/e2e/e2e.c:11-21 | in place: bytes 0 to 5 and everything behind the frame unchanged, byte 6 the counter modulo 16, byte 7 such that the frame is intact; the counter advances modulo 16 |
| E2e.Receiver.InitRx | common/e2e/e2e.c:23-30 | the receiver is unsynchronised |
| E2e.Receiver.Check | common/e2e/e2e.c:32-78 | status and state are those of CheckStep for every frame, length and state |
| E2e.CorruptionIsCaught | common/e2e/e2e.c:42-46 | a burst of at most eight bits, or two flipped bits, gives ERR_CRC and leaves the state untouched |
| E2e.AnchorHeld | common/e2e/e2e.c:48-77 | lastCounter is always the stream number, modulo 16, of the last frame that moved it |
| E2e.StreamStatus | common/e2e/e2e.c:48-77 | over any run of losses, repeats and corruption the status of an intact frame depends only on its stream distance modulo 16 from the last frame that moved the counter: 0 REPEATED, 1 OK, 2-3 SOME_LOST, 4-15 WRONG_SEQ; damage is ERR_CRC, a short frame ERR_LENGTH, and neither changes the state; what is judged valid carries the payload its sender protected |
| E2e.LossesSeen | common/e2e/e2e.c:57-77 | after k losses, k modulo 16, the next frame is OK exactly for 0, SOME_LOST for 1 and 2, WRONG_SEQ for 3 to 14, REPEATED for 15, and usable exactly up to 2 |
| E2e.ValidCarriesPayload | common/e2e/e2e.c:11-78 | a protected frame that is unharmed, or harmed by a burst of at most eight bits or by two bits, and then judged valid, is the frame sent and carries exactly the protected payload |
| Control.HandleExplained | control_ecu/CM4/Core/App/control_app.c:142-171 | after every judged frame the view is explained by the log of raw frames: time of the last valid one, speed 256 * b0 + b1, ADC value 256 * b2 + b3, status b4, the error flag, the streak |
| Control.HandleTakes | control_ecu/CM4/Core/App/control_app.c:142-171 | a frame judged OK, SOME_LOST or INITIAL gives speed 256 * b0 + b1, ADC value 256 * b2 + b3, status b4 and the tick, and ends an end-to-end error if ten good ones came before; any other is discarded and starts the error |
| Control.DutyExplained | control_ecu/CM4/Core/App/control_app.c:337-360 | the output equals what the log of frames justifies |
| Control.FaultsExplained | control_ecu/CM4/Core/App/control_app.c:337-348 | the reported faults in terms of the log, including the 500 ms start-up grace |
| Control.RunInv | control_ecu/CM4/Core/App/control_app.c:142-361 | in every reachable state, with copies and decisions interleaved with frames and soft resets, the output is exactly what the judged frames justify |
| Control.DriveIsJustified | control_ecu/CM4/Core/App/control_app.c:356-361 | a positive duty is floor(speed * 1000 / 2500) <= 1000 for speed = 256 * b0 + b1 <= 2500 of a valid frame at most 100 ms old (modulo 2^32), with no local fault, and at least 11 valid frames since any invalid one |
| Control.HealsOnTheEleventh | control_ecu/CM4/Core/App/control_app.c:156-169 | with n valid frames after an invalid one the end-to-end error is still set exactly when n <= 10 |
| Control.OffInTime | control_ecu/CM4/Core/App/control_app.c:325-361 | with a decision every 10 ms the output is 0 no later than 110 ms after the last valid frame, ages below 2^32 |
| Control.ReadingArrives | sensor_ecu/Core/App/sensor_app.c:186-193 | the sensor's frame (speed and ADC value high byte first, status, E2e_Protect), unharmed or harmed by a short burst or two bits: if it is used, the view holds speed, ADC value and status as measured; otherwise the data in the view stays |
| Control.DriveFollowsSensor | control_ecu/CM4/Core/App/control_app.c:356-361 | in every run whose frames come from the sensor over such a bus a positive duty is floor(speed * 1000 / 2500) of a speed the sensor measured, received at most 100 ms before the decision (modulo 2^32) |
| ControlApp.FlagsAreDetected | control_ecu/CM4/Core/App/control_app.c:337-348 | FaultsOf in numbers, each fault at the index of its code, and the output they leave: the ADC fault alone does not stop it |
| ControlCodes.OneMoreCycle | control_ecu/CM4/Core/App/control_app.c:350-354 | what one monitor cycle reports makes the histories those of one more cycle |
| ControlCodes.OneMoreReset | control_ecu/CM4/Core/App/control_app.c:486-492 | a soft reset starts a cycle in every history |
| ControlCodes.ResetsDoNotMatter | control_ecu/CM4/Core/App/control_app.c:486-492 | a soft reset neither makes nor breaks a run of failures |
| ControlCodes.ConfirmedFaults | control_ecu/CM4/Core/App/diag_app.c:31-38 | the codes confirmed after monitor cycles and soft resets: C10087 exactly if the timeout was seen in one cycle, 050100, C40081, 050096 and 9A0011 exactly if range, end-to-end, ADC and output fault were seen in three cycles in a row |
| ControlCodes.TesterSeesFaults | tester/src/uds_client.cpp:224-245 | the same at the client's end of the bus, in every run of DiagTimeline: if the server copied the codes after whole rounds since the last clear, the client hears exactly these codes |
| ControlApp.App.constructor | control_ecu/CM4/Core/App/control_app.c:380-390 | blank view, no faults |
| ControlApp.App.HandleSpeedFrame | control_ecu/CM4/Core/App/control_app.c:142-171 | view and end-to-end state are those of Handle and CheckStep; a used frame gives speed 256 * b0 + b1, ADC value 256 * b2 + b3, status b4, tick and streak, any other starts the error and leaves the data |
| ControlApp.App.SetFault | control_ecu/CM4/Core/App/control_app.c:219-226 | exactly the named flag changes |
| ControlApp.App.DetectFaults | control_ecu/CM4/Core/App/control_app.c:337-348 | the five flags in the order of their codes: age above 100 ms (500 ms before the first frame), speed above 2500, end-to-end error, ADC status bit 0x02, local injection |
| ControlApp.App.ReportAll | control_ecu/CM4/Core/App/control_app.c:350-354 | every code is told its flag once, nothing else is added to any history |
| ControlApp.App.Monitor | control_ecu/CM4/Core/App/control_app.c:337-361 | flags as in DetectFaults, each reported to the code of its index, and output 0 under a timeout, range, end-to-end or local fault, otherwise speed * 1000 / 2500 |
| UdsModel.Fit | common/uds/uds_server.c:51-60 | bytes put one by one into a limited buffer leave the longest prefix that fits |
| UdsModel.EncodeLength | common/uds/uds_server.c:216-224 | the space a response needs is the sum of the table lengths plus two bytes each |
| UdsModel.ReplyFits | common/uds/uds_server.c:268-309 | the response is never longer than respMax, for every request, state and respMax |
| UdsModel.SuppressOnlySilences | common/uds/uds_server.c:77-127 | the suppress bit of 0x10, 0x11 and 0x3E decides only whether a positive response is sent |
| UdsModel.ClearsExactly | common/uds/uds_server.c:129-146 | of all requests exactly 14 FF FF FF is granted a clear |
| UdsWire.SessionService | common/uds/uds_server.c:77-101 | 0x10 in bytes, for every request, session, addressing and respMax: 0x13 unless two bytes, 0x12 unless sub-function 1 or 3, otherwise the session and 50 xx 00 32 01 F4, silent with bit 7 |
| UdsWire.ResetService | common/uds/uds_server.c:103-127 | 0x11 in bytes: 0x13, 0x12 and, outside session 3, 0x7E, in this order; otherwise pending 1 or 3 and 51 xx, silent with bit 7 |
| UdsWire.ClearService | common/uds/uds_server.c:129-146 | 0x14 in bytes: 0x13 unless four bytes, 0x31 unless the group is FF FF FF, otherwise 54 |
| UdsWire.PresentService | common/uds/uds_server.c:229-243 | 0x3E in bytes: 0x13 unless two bytes, 7E 00 for 00, silence for 80, 0x12 for everything else |
| UdsWire.UnknownService | common/uds/uds_server.c:245-309 | every other service is refused with 0x11; a functional request stays unanswered for exactly 0x11, 0x12, 0x31, 0x7E and 0x7F |
| UdsWire.ReadDtcService | common/uds/uds_server.c:148-193 | 0x19 in bytes: 0x13 below two bytes, 0x12 unless sub-function 1 or 2, 0x13 unless three bytes; 59 01 7F 01 and the count in two bytes; 0x14 if more were counted than fit, otherwise 59 02 7F and the records of the codes that match, code high byte first, as many as fit |
| UdsWire.ReadDidService | common/uds/uds_server.c:195-227 | 0x22 in bytes: 0x13 for a bad length, 0x31 if no identifier is supported, 0x14 if the values do not fit, otherwise 62 and each supported identifier, high byte first, with its value, in request order |
| UdsWire.FindIsFirst | common/uds/uds_server.c:62-72 | an identifier is found exactly if the table has it, and then with the length of its first entry |
| DiagSession.SessionNeedsRequest | common/uds/uds_server.c:311-324 | in every run: right after the periodic call the session is extended exactly if it was before and the newest request of the run was processed less than 5000 ms ago modulo 2^32 |
| DiagSession.SessionEndsInTime | common/uds/uds_server.c:311-324 | with a periodic call at least every P ms, at every moment of every run an extended session means a request less than 5000 + P ms of real time ago, whatever the clock wraps |
| UdsServer.Context.Put | common/uds/uds_server.c:51-60 | the byte is appended if it fits; what fits of everything put is in the buffer |
| UdsServer.Context.Negative | common/uds/uds_server.c:39-49 | 7F, the service and the NRC, or nothing if three bytes do not fit |
| UdsServer.ReadValue | common/uds/uds_server.h:55-55 | a read function fills exactly its length and touches nothing else |
| UdsServer.Server.constructor | common/uds/uds_server.c:257-266 | default session, nothing pending, S3 started |
| UdsServer.Server.Interfere | common/uds/uds_server.c:181-189 | what other tasks may do between two locked accesses: histories only grow |
| UdsServer.Server.SessionControl | common/uds/uds_server.c:77-101 | 0x13 unless two bytes, 0x12 unless the sub-function is 1 or 3; state and response are those of the verdict |
| UdsServer.Server.EcuReset | common/uds/uds_server.c:103-127 | 0x13 unless two bytes, 0x12 unless the sub-function is 1 or 3, 0x7E outside session 3; state and response are those of the verdict; nothing is reset yet |
| UdsServer.Server.ClearDtc | common/uds/uds_server.c:129-146 | 0x13 unless four bytes, 0x31 unless bytes 1 to 3 are all FF, otherwise 0; all histories are cleared exactly in the last case |
| UdsServer.Server.TesterPresent | common/uds/uds_server.c:229-243 | 0x13 unless two bytes, 0x12 unless the second is 00 or 80; the response is that of the verdict |
| UdsServer.Server.ReadDtc | common/uds/uds_server.c:148-193 | the verdict for the table as it was when counted and as it was when copied, with any reports of other tasks in between |
| UdsServer.Server.PutRecords | common/uds/uds_server.c:179-191 | too many codes are refused; otherwise exactly the records of the copied snapshot are appended, as many as there is room for |
| UdsServer.Server.FindDid | common/uds/uds_server.c:62-72 | the first entry with the identifier, if any |
| UdsServer.Server.ReadDid | common/uds/uds_server.c:195-227 | 0x13 for a bad length, 0x31 if no identifier is known, 0x14 exactly if the known ones do not fit, otherwise 62 and each known identifier with what its read function returned |
| UdsServer.Server.Dispatch | common/uds/uds_server.c:289-298 | the service, and with it the verdict, is the one the first byte selects; a refused request leaves session, pending reset and trouble codes as they are (apart from reports of other tasks) |
| UdsServer.Server.ProcessRequest | common/uds/uds_server.c:268-309 | state and response are those of Process; 14 FF FF FF clears every history, no other request clears anything, and only 0x19 lets other tasks report meanwhile |
| UdsServer.Server.MainFunction | common/uds/uds_server.c:311-324 | the session is the default one exactly if it was before or 5000 ms have passed since the last request |
| UdsServer.Server.ExecutePendingReset | common/uds/uds_server.c:331-345 | the pending type is handed out once and the default session is entered |
| UdsClient.Client.Request | tester/src/uds_client.cpp:50-89 | at most maxPending + 1 messages are read, the first with timeout P2 and every one after a response-pending message 7F sid 78 with P2*; all before the deciding one are such messages; the result is what the deciding one means |
| UdsClient.Client.BuildDidRequest | tester/src/uds_client.cpp:168-173 | the request lists the identifiers in order |
| UdsClient.Client.ParseDids | tester/src/uds_client.cpp:181-203 | the loop accepts exactly the well-formed responses and returns their values in order |
| UdsClient.Client.ParseRecords | tester/src/dtc.cpp:54-70 | nothing for a length that is no multiple of four, otherwise one record for every four bytes |
| UdsClient.FinalBytes | tester/src/uds_client.cpp:71-86 | the message that decides: 7F sid nrc is a negative response, a first byte sid + 0x40 modulo 256 a positive one, everything else malformed; 7F sid 78 is response-pending |
| UdsWire.RequestBytes | tester/src/uds_client.cpp:168-173 | a readDids request is 22 and the identifiers, high byte first |
| UdsWire.ParseIsWire | tester/src/uds_client.cpp:181-203 | the client reads a list of values exactly from the bytes of these values, each identifier known and with the length the list gives it |
| UdsWire.RecordsAreCoded | tester/src/dtc.cpp:54-70 | bytes are read as a list of codes exactly if they are the records of these 24-bit codes, high byte first |
| UdsWire.DtcsAccepted | tester/src/uds_client.cpp:224-245 | readDtcs succeeds exactly on a second byte 2 and whole records, and tells these |
| UdsWire.DidsAccepted | tester/src/uds_client.cpp:181-203 | readDids succeeds exactly on some first byte and the bytes of values with the lengths asked for, and tells these values |
| UdsWire.OthersAccepted | tester/src/uds_client.cpp:91-164 | which responses startSession, ecuReset, testerPresent, readDtcCount, clearAllDtcs and readDid accept, and what they tell |
| UdsWire.FindSpecIsFirst | tester/src/uds_client.cpp:184-186 | the client takes the length of the first entry with an identifier |
| UdsRoundTrip.RequestIds | tester/src/uds_client.cpp:168-173 | the server reads the identifiers the client asked for |
| UdsRoundTrip.ParseEncode | tester/src/uds_client.cpp:181-203 | parsing inverts the server's encoding, duplicates included |
| UdsRoundTrip.ReadDidsRoundTrip | tester/src/uds_client.cpp:166-204 | readDids against ReadDid: exactly the known identifiers in request order, duplicates included, each with its read bytes; otherwise NRC 0x13, 0x31 or 0x14, each exactly when due |
| UdsRoundTrip.RecordsOfMatches | tester/src/dtc.cpp:54-70 | the parsed records are the matching (code modulo 2^24, status & 0x7F) pairs in table order |
| UdsRoundTrip.ReadDtcsRoundTrip | tester/src/uds_client.cpp:224-245 | readDtcs against ReadDtc with reports in between: a consistent snapshot in table order, limited to what fits, or NRC 0x14 exactly if too many were counted |
| UdsRoundTrip.QuietReadDtcs | tester/src/uds_client.cpp:224-245 | without reports in between: all matching codes or NRC 0x14 |
| UdsRoundTrip.CountRoundTrip | tester/src/uds_client.cpp:206-222 | readDtcCount returns the number of matching codes |
| UdsRoundTrip.SessionRoundTrip | tester/src/uds_client.cpp:91-108 | startSession enters the session, and the client learns 50 ms and 5000 ms |
| UdsRoundTrip.ResetRoundTrip | tester/src/uds_client.cpp:132-146 | ecuReset succeeds and is pending in the extended session; otherwise the client gets 0x7E and nothing but the S3 timestamp changes |
| UdsRoundTrip.PresentAndClear | tester/src/uds_client.cpp:247-261 | testerPresent and clearAllDtcs succeed; only the latter clears |
| UdsRoundTrip.ReadDidRoundTrip | tester/src/uds_client.cpp:148-164 | readDid returns what the read function returned, 0x31 for an unknown identifier, 0x14 exactly if it does not fit |
| Diagnosis.MatchingIsConfirmed | common/dtc/dtc_manager.c:65-126 | the entries matching mask 0x08 are exactly those whose history holds a run of as many failures as their own table entry asks for, 0 counting as 1 |
| Diagnosis.ConfirmedAsReported | tester/src/uds_client.cpp:224-245 | also with reports between counting and copying: NRC 0x14 exactly if more codes than fit were confirmed when counted; otherwise the client reads exactly the codes that failed at least their threshold of times in a row since the last clear, in table order, as many as fit |
| UdsExchange.ServerIsFree | control_ecu/CM4/Core/App/diag_app.c:103-120 | whenever the server has a request to answer, every earlier response has arrived and its link is idle, so no reply is refused; only suppressed testerPresents can be queued before another request |
| UdsExchange.AllOutIsIdle | common/isotp/isotp.c:147-149 | a sender all of whose messages have been indicated at the other end is idle |
| UdsExchange.InvStep | control_ecu/CM4/Core/App/diag_app.c:103-120 | every step of client, server, links and channels keeps the conversation's invariant: at most one request with a response open, at most one reply on its way, every reply taken by the link |
| UdsExchange.EveryExchange | tester/src/uds_client.cpp:50-89 | in every reachable conversation over two links: requests are served in order and unaltered, no reply is lost, the client receives exactly the replies, in order, and what it received since it last asked is the reply to the request it last made |
| UdsExchange.NeverPending | common/uds/uds_server.c:268-309 | the server never answers response pending, so the first message the client reads is the one that decides |
| UdsExchange.ReadDidsOverTheBus | tester/src/uds_client.cpp:166-204 | every completed readDids in a reachable conversation returns the known identifiers in request order with the bytes read for them, or NRC 0x13, 0x31 or 0x14 exactly when due |
| UdsExchange.ReadDtcsOverTheBus | tester/src/uds_client.cpp:224-245 | every completed readDtcs in a reachable conversation returns all codes, at most 16, that matched when they were copied, in table order; it is never refused or cut off |
| UdsExchange.AnswerCanArrive | control_ecu/CM4/Core/App/diag_app.c:103-120 | from every reachable conversation whose last request is open, whatever world the server then meets, some continuation without timeouts ends with exactly its reply at the client |
| Diagnosis.ConfirmedOverTheBus | tester/src/uds_client.cpp:224-245 | over two links, in every reachable conversation: the response to a request for confirmed codes always is a list, and lists exactly the codes confirmed by the histories behind the copied entries |
| DiagTimeline.SinceClear | common/dtc/dtc_manager.c:121-126 | the histories of a timeline with a clear in it are those of what came after the clear |
| DiagTimeline.Everywhere | common/uds/uds_server.c:148-193 | in every run of client, server, links, monitors, cycles and clears: every request saw the table as the timeline makes it at its two accesses, requests stand in order, and a request is granted a clear exactly if it is 14 FF FF FF, is then answered 54, and stands as a clear in the timeline |
| DiagTimeline.ReadDtcs | tester/src/uds_client.cpp:224-245 | in every such run a completed readDtcs tells exactly the codes that match by what had been reported when they were copied |
| DiagTimeline.ReadConfirmed | tester/src/uds_client.cpp:224-245 | and for mask 0x08 exactly the codes with a run of failures, as long as their own table entry asks for, since the last clear |
| DiagTimeline.AnswerCanArrive | control_ecu/CM4/Core/App/diag_app.c:103-120 | from every such run whose last request is open, whatever is reported before and during its service, some continuation without timeouts ends with exactly the server's reply at the client |
| DiagTimeline.ClearThenRead | tester/src/uds_client.cpp:224-261 | clearAllDtcs, anything in between, readDtcs: the confirmed codes the client hears are exactly those confirmed by what was reported after the clear |
| DiagApp.FunctionalAsPhysical | control_ecu/CM4/Core/App/diag_app.c:371-376 | the functional branch finds exactly the bytes that a link's reassembly indicates as Ok for the same frame, and none exactly when the reassembly indicates none, for every frame but a consecutive one |
| DiagApp.FunctionalRoundTrip | control_ecu/CM4/Core/App/diag_app.c:371-376 | a message of up to seven bytes that the tester puts into a single frame is read back |
| DiagApp.App.RespondTo | control_ecu/CM4/Core/App/diag_app.c:103-111 | the server's reply goes to the link as one Transmit; without a reply, or if the link refuses, the link is unchanged |
| DiagApp.App.OnEcuRequest | control_ecu/CM4/Core/App/diag_app.c:113-120 | an Ok indication is answered as a physical request: server state and reply are those of Process, and the reply goes to the link as one Transmit; any other indication changes nothing |
| DiagApp.App.OnFunctionalFrame | control_ecu/CM4/Core/App/diag_app.c:369-377 | a functional frame is answered as a functional request, its reply going to the link as one Transmit; anything else is ignored; the receiver half of the link is untouched |
| DiagApp.App.OnEcuResponseSent | control_ecu/CM4/Core/App/diag_app.c:122-129 | a pending reset is taken exactly in an Ok confirmation |
| DiagReset.AcceptedReset | common/uds/uds_server.c:103-127 | a reset is accepted only in the extended session, is answered 51 and its type unless suppressed, and is then pending |
| DiagReset.AcceptedExactly | common/uds/uds_server.c:103-127 | accepted are exactly 11 01, 11 03, 11 81 and 11 83 in session 3 |
| DiagReset.OtherRequest | common/uds/uds_server.c:268-309 | no other request touches a pending reset |
| DiagReset.RunInv | control_ecu/CM4/Core/App/diag_app.c:103-129 | the invariant of link, server and pending reset holds after every run |
| DiagReset.ResetsAreAnswers | control_ecu/CM4/Core/App/diag_app.c:122-129 | in every run the reset callback runs only inside an Ok confirmation, the first one after its request and before any newer request, with that request's type, at most once per request; a reset is pending exactly when the newest accepted request has seen no Ok confirmation |
| DiagReset.ResetAfterResponse | control_ecu/CM4/Core/App/diag_app.c:103-129 | if the link took the response, the reset never precedes its confirmation, and after an Ok confirmation it runs in it, when every frame of the response has been given to the driver |
| DiagReset.BusyLinkLosesResponse | control_ecu/CM4/Core/App/diag_app.c:103-111 | a reset request that meets a busy link loses its response and is pending all the same |
| Ring.FullCheck | sensor_ecu/Core/App/tester_app.c:417-418 | next == tail exactly when 31 frames are held |
| Ring.HeadSlotIsFree | sensor_ecu/Core/App/tester_app.c:423-423 | writing the head slot touches no held frame |
| Ring.LostOnlyWhenFull | sensor_ecu/Core/App/tester_app.c:418-422 | a frame is lost exactly when 31 are held at the moment of the check |
| Ring.ResponsesArrive | sensor_ecu/Core/App/tester_app.c:409-416 | the handler takes up exactly the frames with identifier 7E8 |
| Ring.Run | sensor_ecu/Core/App/tester_app.c:409-436 | every interleaving of single memory accesses keeps the invariant |
| Ring.RingIsAFifo | sensor_ecu/Core/App/tester_app.c:409-436 | frames are processed in arrival order; every held frame, also the one being processed, is intact; at most 31 are held; arrivals = accepted + lost + the one in the handler; lost is counted modulo 2^32 |
| RingDrain.RxRing.OnCanFrameIsr | sensor_ecu/Core/App/tester_app.c:409-425 | the handler is the steps Arrive, Check, Store, Publish: identifiers other than 7E8 change nothing, a response is published exactly if fewer than 31 frames are held |
| RingDrain.RxRing.DrainOne | sensor_ecu/Core/App/tester_app.c:432-436 | one round processes and frees exactly the oldest frame, with interrupts before, during and after |
| RingDrain.RxRing.Drain | sensor_ecu/Core/App/tester_app.c:432-436 | when the loop ends, every accepted frame has been processed, in order, whatever arrived meanwhile |

## Left out

- HAL, MCAL drivers, CubeMX code, OpenAMP and CMSIS: register access; the driver is represented by its answers.
- FreeRTOS: only the atomicity of mutex-protected sections and the 10 ms period are used; the receive queue in front of ComRx is not modelled.
- NULL pointers: preconditions by typing; a NULL callback or clock does not occur, so the branches for a missing `getTimeMs`, lock or callback are absent.
- `cfg.ctx`, CAN identifiers and the `sendFrame` arguments of a link: constant data passed through.
- Re-entrancy: a Transmit that the application makes from `rxIndication` is a step of its own after RxFrame; the Ok indication is the last action on its path.
- DiagApp.App.RespondTo: does not call the confirmation callback that a Transmit may cause; callbacks are steps of `DiagReset.Do`, so what a callback changes inside a call of the link is not captured there.
- In `DiagApp.dfy` the DID read functions, the DTC table contents, the reset driver and the loopback self-test are not modelled.
- The receiver half of the ECU's link in `DiagReset.dfy`: requests are complete messages at any time; their way over the bus is in `UdsExchange.dfy`.
- UdsExchange.EveryExchange: assumes no ISO-TP timeout and no lost frame, physically addressed requests, and a client that does not start a request before the response to the last one arrived or is known not to come; a client that gives up while its request is still open is not part of these runs.
- A hard reset between two requests in `UdsExchange.dfy` and `DiagTimeline.dfy`: it restarts both halves of the link and the trouble-code table.
- IsoTpPair.PrefixDelivery: assumes that no timeout fires and no frame is lost, because a message that timed out or lost a frame is missing from the indications, which then are no prefix; what remains true is `IsoTpFirstFrames.IndicationsAreMessages`.
- IsoTpFirstFrames.IndicationsAreMessages: counts from a moment at which the sender is idle, no reception is open and the data channel is empty.
- IsoTpPair.Completes: needs a driver that eventually takes frames; SEND_CF has no timeout in the code.
- IsoTpTiming.BoundedWait: bounds SEND_FIRST and WAIT_FC only; the time in SEND_CF depends on the driver (with accepting drivers `IsoTpDeadline.InTime` bounds the whole transfer).
- IsoTpDeadline.InTime: all clock readings inside one call are the same instant, the traffic of the opposite direction is left out, and a refused frame is not covered.
- Control.DriveIsJustified: ages are modulo 2^32 ms, as in the code; after 49.7 days without a valid frame an old one looks fresh.
- Control.OffInTime: assumes the monitor keeps its 10 ms period and ages below 2^32.
- ControlCodes.TesterSeesFaults: for codes copied between two rounds of the monitor; in the middle of a round the codes reported so far are one round ahead, which `DiagTimeline.ReadConfirmed` covers.
- The statistics counters of `control_app.c`, the alive frames of 0x101, the button debounce and the status frame: they feed back into none of the modelled decisions.
- UdsServer.ReadValue: the bytes a read function writes are arbitrary; nothing is said about their meaning.
- UdsClient.Client.Request: the timeouts are numbers passed to the transport; the passing of time inside a receive is not modelled.
- NrcName, formatDtc, summarizeStatus, hex helpers, Result<T>, printf logging, UART keys, LEDs, self-test and tester step tables, scenario.cpp and the course website: lookup tables, fixed scripts and I/O.
- Moving-average filter, ADC scaling and button debounce in sensor_app.c, bit timing in can_drv.c: their inputs are analogue values and hardware registers.
- In `Ring.dfy` memory accesses are sequentially consistent, and the structure copy into a slot is a store preceded by any number of arbitrary writes.
