/**
 * Progress and cost of a lossless conversation without timeouts: it never gets stuck, every movement
 * brings it closer to completion, and a completed message has used an exact number of frames.
 */
module IsoTpProgress {
  import opened Words
  import opened IsoTpModel
  import IsoTpSender
  import opened IsoTpSession

  // ---------------------------------------------------------------------------------------------
  // Runs
  // ---------------------------------------------------------------------------------------------

  ghost function Run(s: Session, c: Setup, acts: seq<Act>): (r: Session)
    requires s.tx.Valid() && s.rx.Valid()
    ensures r.tx.Valid() && r.rx.Valid()
    decreases |acts|
  {
    if acts == [] then s else Run(Step(s, c, acts[0]), c, acts[1..])
  }

  ghost predicate QuietRun(s: Session, c: Setup, acts: seq<Act>)
    requires s.tx.Valid() && s.rx.Valid()
    decreases |acts|
  {
    acts == [] || (Quiet(s, c, acts[0]) && QuietRun(Step(s, c, acts[0]), c, acts[1..]))
  }

  /** Two idle links, empty channels, nothing pending. */
  ghost function Start(txBuf: Buffer, rxBuf: Buffer): Session {
    Session(IdleTx(txBuf), IdleRx(rxBuf), [], [], [], [], 0, 0)
  }

  // ---------------------------------------------------------------------------------------------
  // The measure
  // ---------------------------------------------------------------------------------------------

  ghost function Left(tx: Tx): int
    requires tx.Valid()
  {
    if tx.Busy() then |Segment(tx.Message())| - tx.Emitted() else 0
  }

  ghost function Flight(s: Session, bs: u8): nat
    requires s.rx.Valid()
  {
    |s.dataQ| + 3 * |Ahead(s.rx.asm, bs, s.dataQ).fcs| + (if s.rx.fcPending then 2 else 0) + |s.fcQ|
  }

  /** Frames still to send count most; then flow control frames due, pending and queued. */
  ghost function Measure(s: Session, c: Setup): int
    requires s.tx.Valid() && s.rx.Valid()
  {
    5 * Left(s.tx) + Flight(s, c.rcfg.blockSize)
  }

  /** The action puts a frame on a channel or takes one off. */
  ghost predicate Moves(s: Session, act: Act) {
    match act
    case Send(t) =>
      || (t.FirstRetry? && s.tx.state == SendFirst && t.accept)
      || (t.Cf? && s.tx.state == SendCf && !CfBlocked(s.tx, t.check, t.accept))
    case Poll(r) => r.FcRetry? && r.accept && s.rx.fcPending
    case DeliverData(_, _) => s.dataQ != []
    case DeliverFc(_) => s.fcQ != []
  }

  lemma LeftPositive(tx: Tx)
    requires tx.Valid()
    ensures Left(tx) >= 0 && (tx.Busy() <==> Left(tx) > 0)
  {
    if tx.Busy() { IsoTpSender.SegmentLength(tx.Message()); }
  }

  lemma FlightOfSent(s: Session, c: Setup, act: TxAct, o: TxOut)
    requires s.tx.Valid() && s.rx.Valid() && o.tx.Valid() && |o.sent| == 1
    ensures var r := AsmStep(Ahead(s.rx.asm, c.rcfg.blockSize, s.dataQ).asm, c.rcfg.blockSize, o.sent[0], CAN_DL);
      Flight(Sent(s, act, o), c.rcfg.blockSize) == Flight(s, c.rcfg.blockSize) + 1 + 3 * |FcList(r.fc)|
  {
    hide AsmStep;
    AheadAppend(s.rx.asm, c.rcfg.blockSize, s.dataQ, o.sent[0]);
    assert o.sent == [o.sent[0]];
  }

  lemma SendLowers(s: Session, c: Setup, act: TxAct)
    requires Inv(s, c) && (act.FirstRetry? || act.Cf?) && Quiet(s, c, Send(act))
    ensures Measure(Step(s, c, Send(act)), c) <= Measure(s, c) - (if Moves(s, Send(act)) then 1 else 0)
  {
    hide Ahead, Segment;
    var v := Ahead(s.rx.asm, c.rcfg.blockSize, s.dataQ);
    var o := TxStep(s.tx, c.nBs, act);
    if Moves(s, Send(act)) {
      if act.Cf? {
        CfArrives(s.tx, v.asm, c.rcfg.blockSize, act.check, act.record, act.block);
      } else {
        FirstArrives(s.tx, v.asm, c.rcfg.blockSize, act.after);
      }
      IsoTpSender.BusyStep(s.tx, c.nBs, act);
      hide AsmStep, TxStep;
      FlightOfSent(s, c, act, o);
    } else {
      assert s.dataQ + [] == s.dataQ;
      assert o == TxOut(s.tx, [], []);
    }
  }

  lemma DeliveryLowers(s: Session, c: Setup, now: u32, accept: bool)
    requires Inv(s, c) && s.dataQ != []
    ensures Measure(Step(s, c, DeliverData(now, accept)), c) < Measure(s, c)
  {
    hide AsmStep, Match, Told, Left, Current;
    var r := AsmStep(s.rx.asm, c.rcfg.blockSize, s.dataQ[0], CAN_DL);
    var next := s.rx.(asm := r.asm, timerStart := if r.rearm then now else s.rx.timerStart);
    SendFcKeeps(next, c.rcfg, r.fc, accept, r.inds);
  }

  /** Every action but a new Transmit lowers the measure if it moves a frame, and never raises it. */
  lemma {:induction false} StepLowers(s: Session, c: Setup, act: Act)
    requires Inv(s, c) && Quiet(s, c, act) && !(act.Send? && act.tact.Transmit?)
    ensures Measure(Step(s, c, act), c) <= Measure(s, c) - (if Moves(s, act) then 1 else 0)
  {
    match act
    case Send(t) =>
      if t.FirstRetry? || t.Cf? { SendLowers(s, c, t); }
      else if t.BsCheck? { assert s.dataQ + [] == s.dataQ; }
    case Poll(r) => if !r.Data? { PollLowers(s, c, r); }
    case DeliverData(now, accept) => if s.dataQ != [] { DeliveryLowers(s, c, now, accept); }
    case DeliverFc(now) => FcLowers(s, c, now);
  }

  lemma PollLowers(s: Session, c: Setup, act: RxAct)
    requires Inv(s, c) && Quiet(s, c, Poll(act)) && !act.Data?
    ensures Measure(Step(s, c, Poll(act)), c) <= Measure(s, c) - (if Moves(s, Poll(act)) then 1 else 0)
  {
    hide Ahead, Match, Told, Left, Current;
    assert RxStep(s.rx, c.rcfg, act).rx.asm == s.rx.asm;
  }

  lemma FcLowers(s: Session, c: Setup, now: u32)
    requires Inv(s, c)
    ensures Measure(Step(s, c, DeliverFc(now)), c) <= Measure(s, c) - (if s.fcQ != [] then 1 else 0)
  {
    hide Ahead, Match, Told, Segment;
    if s.fcQ != [] {
      assert s.fcQ[0] == FcFrame(FC_CTS, c.rcfg.blockSize, c.rcfg.stMin);
    }
  }

  // ---------------------------------------------------------------------------------------------
  // No deadlock, and completion
  // ---------------------------------------------------------------------------------------------

  /** As long as anything is under way, some action that fires no timeout moves a frame. */
  lemma NoDeadlock(s: Session, c: Setup) returns (act: Act)
    requires Inv(s, c) && Measure(s, c) > 0
    ensures Quiet(s, c, act) && Moves(s, act) && !(act.Send? && act.tact.Transmit?)
  {
    hide Match, Told, Current;
    LeftPositive(s.tx);
    hide Left, Segment;
    if s.dataQ != [] { act := DeliverData(0, true); }
    else if s.fcQ != [] { act := DeliverFc(0); }
    else if s.rx.fcPending { act := Poll(FcRetry(true)); }
    else if s.tx.state == SendFirst { act := Send(FirstRetry(true, 0, 0)); }
    else {
      var check: u32 := (s.tx.lastCf + s.tx.stMin + 1) % TWO32;
      act := Send(Cf(check, true, 0, 0));
    }
  }

  /** Nothing under way: every accepted message has been indicated, in order, and nothing else has. */
  lemma Settled(s: Session, c: Setup)
    requires Inv(s, c) && Measure(s, c) <= 0
    ensures !s.tx.Busy() && s.dataQ == [] && s.fcQ == [] && !s.rx.fcPending && s.inds == Oks(s.accepted)
  {
    LeftPositive(s.tx);
    assert s.inds + [] == s.inds;
  }

  /** From every reachable state the conversation can be completed, in at most `Measure` actions. */
  lemma {:induction false} Completes(s: Session, c: Setup) returns (acts: seq<Act>)
    requires Inv(s, c)
    ensures QuietRun(s, c, acts) && |acts| <= Measure(s, c)
    ensures var r := Run(s, c, acts);
      && Inv(r, c) && Measure(r, c) == 0
      && r.accepted == s.accepted && !r.tx.Busy() && r.inds == Oks(s.accepted)
    decreases Measure(s, c)
  {
    hide Inv, Moves, Measure, Step, Quiet;
    MeasureNat(s, c);
    if Measure(s, c) == 0 {
      Settled(s, c);
      acts := [];
    } else {
      var act := NoDeadlock(s, c);
      StepLowers(s, c, act);
      InvStep(s, c, act);
      StepAccepts(s, c, act);
      var rest := Completes(Step(s, c, act), c);
      acts := [act] + rest;
    }
  }

  lemma MeasureNat(s: Session, c: Setup)
    requires Inv(s, c)
    ensures s.tx.Valid() && s.rx.Valid()
    ensures Measure(s, c) >= 0
  {
    LeftPositive(s.tx);
  }

  lemma StepAccepts(s: Session, c: Setup, act: Act)
    requires s.tx.Valid() && s.rx.Valid() && !(act.Send? && act.tact.Transmit?)
    ensures Step(s, c, act).accepted == s.accepted
  {}
}
