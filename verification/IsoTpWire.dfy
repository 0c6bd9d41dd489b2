/**
 * The frames of a link byte by byte, and what its receiver answers: which flow control frames it owes and sends, and
 * what it tells the application when a reception ends early. Written in the numbers of ISO 15765-2.
 */
module IsoTpWire {
  import opened Words
  import opened IsoTpModel
  import opened IsoTpReceiver

  /** A message of up to seven bytes: its length, its bytes, and 0xCC up to the end. */
  lemma SingleFrameBytes(m: seq<u8>, i: nat)
    requires 1 <= |m| <= 7 && 1 <= i < 8
    ensures |Segment(m)| == 1 && Segment(m)[0][0] == |m|
    ensures Segment(m)[0][i] == if i <= |m| then m[i - 1] else 0xCC
  {}

  /** A longer message: a first frame with its length and six bytes, and one more frame for each seven bytes. */
  lemma FirstFrameBytes(m: seq<u8>)
    requires 7 < |m| <= 4095
    ensures |Segment(m)| == 1 + |m| / 7
    ensures 256 * Segment(m)[0][0] as int + Segment(m)[0][1] == 0x1000 + |m| && Segment(m)[0][2..] == m[..6]
  {
    hide ConsecutiveFrame;
  }

  /** The k-th of these: its number modulo 16, seven bytes of the message, and 0xCC behind the last one. */
  lemma ConsecutiveFrameBytes(m: seq<u8>, k: nat, i: nat)
    requires 7 < |m| <= 4095 && 1 <= k <= |m| / 7 && 1 <= i < 8
    ensures k < |Segment(m)| && Segment(m)[k][0] == 0x20 + k % 16
    ensures Segment(m)[k][i] == if 7 * k + i - 2 < |m| then m[7 * k + i - 2] else 0xCC
  {
    hide Segment, ConsecutiveFrame;
    SegmentAt(m, k);
    CfByte(m, k - 1, i);
  }

  lemma SegmentAt(m: seq<u8>, k: nat)
    requires 7 < |m| <= 4095 && 1 <= k <= |m| / 7
    ensures k - 1 < CfCount(|m|) && k < |Segment(m)| && Segment(m)[k] == ConsecutiveFrame(m, k - 1)
  {
    hide ConsecutiveFrame;
  }

  lemma CfByte(m: seq<u8>, k: nat, i: nat)
    requires 7 < |m| && k < CfCount(|m|) && 1 <= i < 8
    ensures ConsecutiveFrame(m, k)[0] == 0x20 + (k + 1) % 16
    ensures ConsecutiveFrame(m, k)[i] == if 7 * k + i + 5 < |m| then m[7 * k + i + 5] else 0xCC
  {}

  lemma FlowControlBytes(status: u8, blockSize: u8, stMin: u8)
    requires status < 16
    ensures FcFrame(status, blockSize, stMin) == [0x30 + status, blockSize, stMin, 0xCC, 0xCC, 0xCC, 0xCC, 0xCC]
  {}

  // ---------------------------------------------------------------------------------------------
  // Flow control over runs of the receiver
  // ---------------------------------------------------------------------------------------------

  /**
   * A run of the receiver half with its flow control: `due` are the statuses that received frames called for, and
   * `sent` the frames that left.
   */
  datatype Answering = Answering(rx: Rx, due: seq<u8>, sent: seq<Frame>)

  ghost function Answer(w: Answering, cfg: Cfg, act: RxAct): (r: Answering)
    requires w.rx.Valid()
    ensures r.rx.Valid()
  {
    var o := RxStep(w.rx, cfg, act);
    Answering(o.rx, w.due + (if act.Data? then Called(w.rx.asm, cfg.blockSize, act.data, act.dlc) else []),
              w.sent + o.sent)
  }

  /**
   * The flow control a frame calls for: continue for a first frame that fits and at the end of a block, overflow for
   * a first frame that does not fit.
   */
  ghost function Called(a: Asm, blockSize: u8, data: Frame, dlc: u8): seq<u8>
    requires a.Valid()
  {
    if dlc == 8 && data[0] / 16 == 1 && FfLength(data) >= 8 then [if FfLength(data) <= |a.buf| then 0 else 2]
    else if Continues(a, data, dlc) && a.length - a.offset > 7 && blockSize != 0
            && (a.blockCount + 1) % 256 >= blockSize
    then [0]
    else []
  }

  lemma CalledIs(a: Asm, bs: u8, data: Frame, dlc: u8)
    requires a.Valid()
    ensures var fc := AsmStep(a, bs, data, dlc).fc;
      Called(a, bs, data, dlc) == if fc.Some? then [fc.value] else []
  {
    hide AsmStep;
    if Begins(a, data, dlc) { BeginStep(a, bs, [], data, dlc); }
    else if Continues(a, data, dlc) { StoredBytes(a, bs, data, dlc); }
    else { OtherStep(a, bs, data, dlc); }
  }

  ghost function Run(w: Answering, cfg: Cfg, acts: seq<RxAct>): (r: Answering)
    requires w.rx.Valid()
    ensures r.rx.Valid()
    decreases |acts|
  {
    if acts == [] then w else Answer(Run(w, cfg, acts[..|acts| - 1]), cfg, acts[|acts| - 1])
  }

  ghost function Idle(buf: Buffer): Answering { Answering(IdleRx(buf), [], []) }

  /** The flow control frame with this status and the configured block size and separation time. */
  ghost predicate Carries(f: Frame, status: u8, cfg: Cfg) {
    status < 16 && f == [0x30 + status, cfg.blockSize, cfg.stMin, 0xCC, 0xCC, 0xCC, 0xCC, 0xCC]
  }

  /** `at` assigns to each sent frame the call it answers. */
  ghost predicate Answers(w: Answering, cfg: Cfg, at: seq<nat>) {
    && AnswersInOrder(w.due, w.sent, cfg, at)
    && if w.rx.fcPending then w.due != [] && w.rx.fcStatus == w.due[|w.due| - 1] && Before(at, |w.due| - 1)
       else w.due == [] || (at != [] && at[|at| - 1] == |w.due| - 1)
  }

  ghost predicate AnswersInOrder(due: seq<u8>, sent: seq<Frame>, cfg: Cfg, at: seq<nat>) {
    && |at| == |sent|
    && (forall i :: 0 <= i < |at| ==> at[i] < |due| && Carries(sent[i], due[at[i]], cfg))
    && (forall i, j :: 0 <= i < j < |at| ==> at[i] < at[j])
  }

  ghost predicate Before(at: seq<nat>, n: int) { forall i :: 0 <= i < |at| ==> at[i] < n }

  lemma OneMoreAnswer(due: seq<u8>, sent: seq<Frame>, more: seq<Frame>, cfg: Cfg, at: seq<nat>)
    requires AnswersInOrder(due, sent, cfg, at) && due != [] && Before(at, |due| - 1)
    requires |more| == |sent| + 1 && more[..|sent|] == sent && Carries(more[|sent|], due[|due| - 1], cfg)
    ensures AnswersInOrder(due, more, cfg, at + [|due| - 1])
  {
    hide Carries;
    assert more == sent + [more[|sent|]];
  }

  lemma CallsMore(due: seq<u8>, s: u8, sent: seq<Frame>, cfg: Cfg, at: seq<nat>)
    requires AnswersInOrder(due, sent, cfg, at)
    ensures AnswersInOrder(due + [s], sent, cfg, at) && Before(at, |due|)
  {
    hide Carries;
  }

  /** What one action does: the calls it adds, the frame it sends, and what then waits. */
  lemma AnswerStep(w: Answering, cfg: Cfg, act: RxAct)
    requires w.rx.Valid()
    ensures var r := Answer(w, cfg, act); var open := w.rx.fcPending || r.due != w.due;
      && (r.due == w.due || (act.Data? && exists s: u8 :: s in {0, 2} && r.due == w.due + [s]))
      && (r.sent != w.sent ==>
            && open && !r.rx.fcPending && |r.sent| == |w.sent| + 1 && r.sent[..|w.sent|] == w.sent
            && Carries(r.sent[|w.sent|], if r.due != w.due then r.due[|w.due|] else w.rx.fcStatus, cfg))
      && (r.sent == w.sent ==>
            && r.rx.fcPending == open
            && (open ==> r.rx.fcStatus == if r.due != w.due then r.due[|w.due|] else w.rx.fcStatus))
      && (r.sent != w.sent <==> open && !act.CrCheck? && act.accept && (r.due != w.due || act.FcRetry?))
  {
    hide AsmStep, Called;
    if act.Data? { CalledIs(w.rx.asm, cfg.blockSize, act.data, act.dlc); }
  }

  /** The calls of the sent frames, extended by one action. */
  lemma AnswersMore(w: Answering, cfg: Cfg, act: RxAct, at: seq<nat>) returns (next: seq<nat>)
    requires w.rx.Valid() && Answers(w, cfg, at)
    ensures Answers(Answer(w, cfg, act), cfg, next)
  {
    hide Answer, Carries;
    AnswerStep(w, cfg, act);
    var r := Answer(w, cfg, act);
    hide AnswersInOrder, Before;
    next := at;
    if r.due != w.due { CallsMore(w.due, r.due[|w.due|], w.sent, cfg, at); }
    if r.sent != w.sent {
      OneMoreAnswer(r.due, w.sent, r.sent, cfg, at);
      next := at + [|r.due| - 1];
    }
  }

  /**
   * Whatever arrives and whenever the driver refuses: the flow control frames sent answer the calls in order, each at
   * most once and with its own status; a call is given up only for a later one, and the latest one has been answered
   * or is still to be retried with its status.
   */
  lemma {:induction false} FlowControlAnswers(buf: Buffer, cfg: Cfg, acts: seq<RxAct>) returns (at: seq<nat>)
    ensures Answers(Run(Idle(buf), cfg, acts), cfg, at)
    decreases |acts|
  {
    hide Answer;
    at := [];
    if acts != [] {
      var before := FlowControlAnswers(buf, cfg, acts[..|acts| - 1]);
      at := AnswersMore(Run(Idle(buf), cfg, acts[..|acts| - 1]), cfg, acts[|acts| - 1], before);
    }
  }

  /** With a driver that takes every frame each call is answered at once. */
  lemma {:induction false} AllAnswered(buf: Buffer, cfg: Cfg, acts: seq<RxAct>)
    requires forall i :: 0 <= i < |acts| ==> acts[i].CrCheck? || acts[i].accept
    ensures var w := Run(Idle(buf), cfg, acts);
      && !w.rx.fcPending && |w.sent| == |w.due|
      && forall i :: 0 <= i < |w.due| ==> Carries(w.sent[i], w.due[i], cfg)
    decreases |acts|
  {
    hide Answer, Carries;
    if acts != [] {
      var n := |acts| - 1;
      AllAnswered(buf, cfg, acts[..n]);
      var w := Run(Idle(buf), cfg, acts[..n]);
      var r := Answer(w, cfg, acts[n]);
      AnswerStep(w, cfg, acts[n]);
      forall i | 0 <= i < |r.due| ensures |r.sent| == |r.due| && Carries(r.sent[i], r.due[i], cfg) {
        if i < |w.due| && r.sent != w.sent { assert r.sent[i] == r.sent[..|w.sent|][i]; }
      }
    }
  }

  /** N_Cr: a reception without a frame for that long is given up, and the bytes so far are indicated as such. */
  lemma ReceptionTimesOut(rx: Rx, cfg: Cfg, now: u32)
    requires rx.Valid()
    ensures RxStep(rx, cfg, CrCheck(now))
      == if rx.asm.receiving && (now - rx.timerStart) % TWO32 >= cfg.nCr
         then RxOut(rx.(asm := rx.asm.(receiving := false)), [], [Ind(rx.asm.buf[..rx.asm.offset], ErrTimeoutCr)])
         else RxOut(rx, [], [])
  {}

  /** The timer of an open reception starts anew with the first frame and every stored one, and with nothing else. */
  lemma TimerRestarts(rx: Rx, cfg: Cfg, data: Frame, dlc: u8, now: u32, accept: bool)
    requires rx.Valid()
    ensures var r := RxStep(rx, cfg, Data(data, dlc, now, accept)).rx;
      r.timerStart ==
        if (Begins(rx.asm, data, dlc) && data[0] / 16 == 1) || Continues(rx.asm, data, dlc) then now else rx.timerStart
  {
    hide AsmStep;
    var a := rx.asm;
    if Begins(a, data, dlc) { BeginStep(a, cfg.blockSize, [], data, dlc); }
    else if Continues(a, data, dlc) { StoredBytes(a, cfg.blockSize, data, dlc); }
    else { OtherStep(a, cfg.blockSize, data, dlc); }
  }
}
