/**
 * How the sender answers flow control, in the numbers of ISO 15765-2: it waits as long as it is asked to, up to ten
 * times, and every other answer of the receiver has exactly one effect.
 */
module IsoTpFlow {
  import opened Words
  import opened IsoTpModel
  import opened IsoTpSender

  /** A flow control frame that asks the sender to wait; one of less than three bytes does not count. */
  ghost predicate IsWait(act: TxAct) { act.Fc? && act.dlc >= 3 && act.data[0] % 16 == 1 }

  /** How often the sender was asked to wait. */
  ghost function Waits(acts: seq<TxAct>): nat {
    if acts == [] then 0
    else Waits(acts[..|acts| - 1]) + (if IsWait(acts[|acts| - 1]) then 1 else 0)
  }

  /** When the last of these requests was taken, or `start` if there was none. */
  ghost function LastWait(acts: seq<TxAct>, start: u32): u32 {
    if acts == [] then start
    else if IsWait(acts[|acts| - 1]) then acts[|acts| - 1].now
    else LastWait(acts[..|acts| - 1], start)
  }

  /**
   * What may happen while a sender waits: requests to wait, frames too short to count, polls of the driver and of the
   * application, and checks of N_Bs less than N_Bs after the last request to wait.
   */
  ghost predicate Patient(acts: seq<TxAct>, start: u32, nBs: u16) {
    forall i :: 0 <= i < |acts| ==> PatientAct(acts[i], LastWait(acts[..i], start), nBs)
  }

  ghost predicate PatientAct(act: TxAct, since: u32, nBs: u16) {
    match act
    case Fc(data, dlc, _) => dlc < 3 || data[0] % 16 == 1
    case BsCheck(now) => (now - since) % TWO32 < nBs
    case _ => true
  }

  /** A sender that waits for flow control and has not been asked to wait yet. */
  ghost predicate Waiting(w: Monitor) {
    w.tx.Valid() && w.tx.state == WaitFc && w.tx.waitCount == 0
  }

  /** The sender as it was, but for the count of waits and the start of N_Bs. */
  ghost function Held(w: Monitor, acts: seq<TxAct>): Monitor
    requires Waits(acts) <= 10
  {
    w.(tx := w.tx.(waitCount := Waits(acts), timerStart := LastWait(acts, w.tx.timerStart)))
  }

  lemma PatientStep(w: Monitor, nBs: u16, act: TxAct)
    requires w.tx.Valid() && w.tx.state == WaitFc && PatientAct(act, w.tx.timerStart, nBs)
    requires IsWait(act) ==> w.tx.waitCount < 10
    ensures Watch(w, nBs, act)
      == if IsWait(act) then w.(tx := w.tx.(waitCount := w.tx.waitCount + 1, timerStart := act.now)) else w
  {}

  /**
   * Up to ten requests to wait, however far apart and whatever else is tried meanwhile, leave the transfer as it was:
   * the same message and position, nothing sent, nothing confirmed, and N_Bs counted from the last request.
   */
  lemma {:induction false} WaitsAreTolerated(w: Monitor, nBs: u16, acts: seq<TxAct>)
    requires Waiting(w) && Patient(acts, w.tx.timerStart, nBs) && Waits(acts) <= 10
    ensures var r := Run(w, nBs, acts);
      && r == Held(w, acts)
      && r.tx.state == WaitFc && r.done == w.done && r.frames == w.frames && r.accepted == w.accepted
      && r.tx.Message() == w.tx.Message() && r.tx.Emitted() == w.tx.Emitted()
    decreases |acts|
  {
    hide Watch, IsWait, PatientAct;
    if acts != [] {
      var n := |acts| - 1;
      assert forall i :: 0 <= i < n ==> acts[..n][i] == acts[i] && acts[..n][..i] == acts[..i];
      WaitsAreTolerated(w, nBs, acts[..n]);
      PatientStep(Held(w, acts[..n]), nBs, acts[n]);
    }
  }

  /** The transfer ends with this result: the sender is idle and confirms the message once. */
  ghost predicate Ends(w: Monitor, r: Monitor, why: Result) {
    && r.tx.state == TxIdle && r.accepted == w.accepted && r.frames == w.frames
    && r.done == w.done + [Transfer(if w.accepted == [] then [] else w.accepted[|w.accepted| - 1], w.frames, why)]
  }

  /** What follows from a state in which the sender waits for flow control. */
  ghost predicate Decided(w: Monitor, r: Monitor, nBs: u16, act: TxAct) {
    match act
    case BsCheck(now) =>
      if (now - w.tx.timerStart) % TWO32 >= nBs then Ends(w, r, ErrTimeoutBs) else r == w
    case Fc(data, dlc, now) =>
      if dlc < 3 then r == w
      else if data[0] % 16 == 0 then
        && r.tx.state == SendCf && r.done == w.done && r.frames == w.frames && r.accepted == w.accepted
        && r.tx.buf == w.tx.buf && r.tx.length == w.tx.length && r.tx.offset == w.tx.offset && r.tx.sn == w.tx.sn
        && r.tx.blockSize == data[1] && r.tx.blockCount == 0 && r.tx.waitCount == 0
        && r.tx.stMin == (if data[2] <= 0x7F then data[2] else if 0xF1 <= data[2] <= 0xF9 then 1 else 0x7F)
      else if data[0] % 16 == 1 then
        if w.tx.waitCount >= 10 then Ends(w, r, ErrWftOvrn)
        else r == w.(tx := w.tx.(waitCount := w.tx.waitCount + 1, timerStart := now))
      else if data[0] % 16 == 2 then Ends(w, r, ErrOverflow)
      else Ends(w, r, ErrInvalidFs)
    case _ => r == w
  }

  lemma WaitingStep(w: Monitor, nBs: u16, act: TxAct)
    requires w.tx.Valid() && w.tx.state == WaitFc
    ensures Decided(w, Watch(w, nBs, act), nBs, act)
  {
    hide DecodeStMin, Record, Ends;
    var o := TxStep(w.tx, nBs, act);
    if act.Fc? { StMinIs(act.data[2]); }
    if o.confs == [] { NothingEnds(w, o, Burst(w, act, o)); } else { EndRecorded(w, o, Burst(w, act, o)); }
  }

  lemma EndRecorded(w: Monitor, o: TxOut, burst: nat)
    requires o.sent == [] && |o.confs| == 1 && o.tx.state == TxIdle
    ensures Ends(w, Record(w, w.accepted, w.frames, o, burst), o.confs[0])
  {
    assert w.frames + [] == w.frames;
  }

  lemma NothingEnds(w: Monitor, o: TxOut, burst: nat)
    requires o.sent == [] && o.confs == []
    ensures Record(w, w.accepted, w.frames, o, burst) == w.(tx := o.tx, burst := burst)
  {
    assert w.frames + [] == w.frames;
  }

  lemma StMinIs(raw: u8)
    ensures DecodeStMin(raw) == if raw <= 0x7F then raw else if 0xF1 <= raw <= 0xF9 then 1 else 0x7F
  {}

  /**
   * After n requests to wait, n at most ten, everything that can come next: a continue-to-send starts the block with
   * its block size and separation time; the eleventh request to wait, an overflow, an unknown status and N_Bs without
   * an answer end the transfer, each with its own result; nothing else does anything.
   */
  lemma AfterWaits(w: Monitor, nBs: u16, acts: seq<TxAct>, act: TxAct)
    requires Waiting(w) && Patient(acts, w.tx.timerStart, nBs) && Waits(acts) <= 10
    ensures var r := Run(w, nBs, acts + [act]); var held := Held(w, acts);
      && Decided(held, r, nBs, act)
      && held.tx.waitCount == Waits(acts) && held.tx.timerStart == LastWait(acts, w.tx.timerStart)
  {
    hide Run, Watch, Decided, Patient;
    WaitsAreTolerated(w, nBs, acts);
    RunMore(w, nBs, acts, act);
    WaitingStep(Held(w, acts), nBs, act);
  }

  lemma RunMore(w: Monitor, nBs: u16, acts: seq<TxAct>, act: TxAct)
    requires w.tx.Valid()
    ensures Run(w, nBs, acts + [act]) == Watch(Run(w, nBs, acts), nBs, act)
  {
    hide Watch;
    assert (acts + [act])[..|acts|] == acts;
  }

  /** A flow control frame that comes when none is awaited has no effect. */
  lemma FlowControlOutOfPlace(w: Monitor, nBs: u16, data: Frame, dlc: u8, now: u32)
    requires w.tx.Valid() && w.tx.state != WaitFc
    ensures Watch(w, nBs, Fc(data, dlc, now)) == w
  {}

  /** A first frame is tried until the driver takes it or N_Bs has passed since Transmit. */
  lemma FirstFrameRetry(w: Monitor, nBs: u16, accept: bool, after: u32, now: u32)
    requires w.tx.Valid() && w.tx.state == SendFirst
    ensures var r := Watch(w, nBs, FirstRetry(accept, after, now));
      if accept then r.frames == w.frames + [Segment(w.tx.Message())[0]]
      else if (now - w.tx.timerStart) % TWO32 >= nBs then Ends(w, r, ErrTimeoutBs)
      else r == w
  {
    hide Segment, TxFirst, Pad, Ends;
    var act := FirstRetry(accept, after, now);
    var o := TxStep(w.tx, nBs, act);
    if !accept && (now - w.tx.timerStart) % TWO32 >= nBs { EndRecorded(w, o, Burst(w, act, o)); }
    if accept || (now - w.tx.timerStart) % TWO32 < nBs { FirstStep(w.tx, accept, after); }
  }

  /**
   * What IsoTp_Transmit answers. A refused message changes nothing; an accepted one goes out with its first frame, or
   * waits for the driver from now on; after the first frame of a longer one N_Bs runs.
   */
  lemma TransmitAnswers(w: Monitor, nBs: u16, msg: seq<u8>, now: u32, accept: bool, after: u32)
    requires w.tx.Valid()
    ensures TransmitResult(w.tx, msg)
      == if |msg| == 0 || |msg| > 4095 || |msg| > |w.tx.buf| then ErrParam
         else if w.tx.state != TxIdle then ErrBusy else Ok
    ensures var r := Watch(w, nBs, Transmit(msg, now, accept, after));
      if TransmitResult(w.tx, msg) != Ok then r == w
      else
        && r.accepted == w.accepted + [msg]
        && (if !accept then r.tx.state == SendFirst && r.tx.Message() == msg && r.frames == [] && r.tx.timerStart == now
            else r.frames == [Segment(msg)[0]] && (|msg| <= 7 ==> r.tx.state == TxIdle)
                 && (|msg| > 7 ==> r.tx.state == WaitFc && r.tx.Message() == msg && r.tx.timerStart == after
                                   && r.tx.waitCount == 0))
  {
    hide Segment, Pad;
    if TransmitResult(w.tx, msg) == Ok {
      TransmitStep(w.tx, msg, now, accept, after);
      SegmentLength(msg);
    }
  }
}
