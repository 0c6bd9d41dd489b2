/**
 * The exact number of frames a lossless conversation costs. Counting is done on every reachable state, so
 * the totals hold for any number of messages and any interleaving, not only for one transfer.
 */
module IsoTpCost {
  import opened Words
  import Arith
  import opened IsoTpModel
  import IsoTpSender
  import opened IsoTpSession
  import opened IsoTpProgress

  /** Data frames of an n-byte message: one SF, or one FF and ceil((n - 6) / 7) CFs. */
  ghost function DataFrames(n: nat): nat {
    if n <= SF_MAX_DATA then 1 else 1 + CfCount(n)
  }

  /** Flow control frames of an n-byte message received with block size bs. */
  ghost function FcFrames(n: nat, bs: u8): nat {
    if n <= SF_MAX_DATA then 0 else if bs == 0 then 1 else 1 + (CfCount(n) - 1) / bs
  }

  ghost function TotalData(ms: seq<seq<u8>>): nat {
    if ms == [] then 0 else TotalData(ms[..|ms| - 1]) + DataFrames(|ms[|ms| - 1]|)
  }

  ghost function TotalFc(ms: seq<seq<u8>>, bs: u8): nat {
    if ms == [] then 0 else TotalFc(ms[..|ms| - 1], bs) + FcFrames(|ms[|ms| - 1]|, bs)
  }

  /** Consecutive frames of the current message that are out. */
  ghost function CfsOut(tx: Tx): int { (tx.offset - FF_DATA) / CF_MAX_DATA }

  /** Flow control frames the current message has called for so far. */
  ghost function FcSoFar(tx: Tx, bs: u8): int {
    if !tx.Streaming() then 0 else if bs == 0 then 1 else 1 + CfsOut(tx) / bs
  }

  ghost predicate DataCount(s: Session)
    requires s.tx.Valid()
  {
    s.dataSent == TotalData(Finished(s)) + (if s.tx.Busy() then s.tx.Emitted() else 0)
  }

  ghost predicate FcCount(s: Session, c: Setup)
    requires s.tx.Valid() && s.rx.Valid()
  {
    s.fcSent + (if s.rx.fcPending then 1 else 0) + |Ahead(s.rx.asm, c.rcfg.blockSize, s.dataQ).fcs|
    == TotalFc(Finished(s), c.rcfg.blockSize) + FcSoFar(s.tx, c.rcfg.blockSize)
  }

  /** The position inside the current block. */
  ghost predicate BlockPosition(tx: Tx, bs: u8) {
    bs != 0 && tx.Streaming() ==> CfsOut(tx) % bs == (if tx.state == SendCf then tx.blockCount else 0)
  }

  ghost predicate Count(s: Session, c: Setup) {
    s.tx.Valid() && s.rx.Valid() && DataCount(s) && FcCount(s, c) && BlockPosition(s.tx, c.rcfg.blockSize)
  }

  /** One consecutive frame in terms of frame counts only. */
  lemma CfCounters(tx: Tx, check: u32, record: u32, block: u32)
    requires tx.Valid() && tx.state == SendCf && !CfBlocked(tx, check, true)
    ensures var t := TxCf(tx, check, true, record, block).tx; var k := CfsOut(tx); var n := CfCount(|tx.Message()|);
      && 0 <= k < n && tx.Emitted() == 1 + k
      && (t.Busy() <==> k + 1 < n)
      && (t.Busy() ==> t.Streaming() && CfsOut(t) == k + 1 && t.Emitted() == k + 2)
      && (t.Busy() && tx.blockSize != 0 ==>
            if tx.blockCount + 1 < tx.blockSize then t.state == SendCf && t.blockCount == tx.blockCount + 1
            else t.state == WaitFc)
      && (t.Busy() && tx.blockSize == 0 ==> t.state == SendCf)
  {
    IsoTpSender.CfPosition(tx, check, record, block);
    IsoTpSender.SegmentLength(tx.Message());
  }

  /** How far one consecutive frame moves the counters. */
  lemma CfCosts(tx: Tx, bs: u8, check: u32, record: u32, block: u32)
    requires tx.Valid() && tx.state == SendCf && !CfBlocked(tx, check, true)
    requires tx.blockSize == bs && BlockPosition(tx, bs)
    ensures var t := TxCf(tx, check, true, record, block).tx;
      && BlockPosition(t, bs)
      && (if t.Busy() then t.Emitted() == tx.Emitted() + 1 else DataFrames(|tx.Message()|) == tx.Emitted() + 1)
      && (if t.Busy() then FcSoFar(t, bs) else FcFrames(|tx.Message()|, bs))
         == FcSoFar(tx, bs) + (if t.state == WaitFc then 1 else 0)
  {
    CfCounters(tx, check, record, block);
    hide TxCf, CfsOut;
    if bs != 0 { Arith.NextInBlock(CfsOut(tx), bs); }
  }

  lemma IdleCounts(tx: Tx, bs: u8)
    ensures !tx.Streaming() ==> FcSoFar(tx, bs) == 0
  {}

  lemma FinishedSums(ms: seq<seq<u8>>, m: seq<u8>, bs: u8)
    ensures TotalData(ms + [m]) == TotalData(ms) + DataFrames(|m|)
    ensures TotalFc(ms + [m], bs) == TotalFc(ms, bs) + FcFrames(|m|, bs)
  {
    assert (ms + [m])[..|ms|] == ms;
  }

  /** A frame leaves the sender. */
  lemma SentCounts(s: Session, c: Setup, act: TxAct, o: TxOut, before: Tx)
    requires Inv(s, c) && Count(s, c)
    requires before.Valid() && before.Busy() && before.state != WaitFc && o.tx.Valid() && |o.sent| == 1
    requires if IsoTpSender.Starts(s.tx, act) then !s.tx.Busy() && before.Message() == act.msg
        && before.state == SendFirst else before == s.tx
    requires o.tx.Busy() ==> o.tx.Message() == before.Message() && o.tx.Emitted() == before.Emitted() + 1
    requires !o.tx.Busy() ==> DataFrames(|before.Message()|) == before.Emitted() + 1
    requires var r := AsmStep(Ahead(s.rx.asm, c.rcfg.blockSize, s.dataQ).asm, c.rcfg.blockSize, o.sent[0], CAN_DL);
      r.fc == (if o.tx.state == WaitFc then Some(FC_CTS) else None)
    requires var bs := c.rcfg.blockSize;
      && BlockPosition(o.tx, bs)
      && (if o.tx.Busy() then FcSoFar(o.tx, bs) else FcFrames(|before.Message()|, bs))
         == FcSoFar(before, bs) + (if o.tx.state == WaitFc then 1 else 0)
    ensures Count(Sent(s, act, o), c)
  {
    hide AsmStep, Match, Ahead, Told, Credit, BlockPosition, FcSoFar, TotalData, TotalFc, FcFrames, DataFrames,
      Tx.Valid, Asm.Valid, IsMessage;
    AheadAppend(s.rx.asm, c.rcfg.blockSize, s.dataQ, o.sent[0]);
    assert o.sent == [o.sent[0]];
    var s' := Sent(s, act, o);
    assert s'.accepted == Finished(s) + [before.Message()];
    assert Finished(s) == s'.accepted[..|s'.accepted| - 1];
    FinishedSums(Finished(s), before.Message(), c.rcfg.blockSize);
    IdleCounts(s.tx, c.rcfg.blockSize);
    IdleCounts(before, c.rcfg.blockSize);
    IdleCounts(o.tx, c.rcfg.blockSize);
  }

  lemma FirstCosts(tx: Tx, bs: u8, after: u32)
    requires tx.Valid() && tx.state == SendFirst
    ensures var t := TxFirst(tx, true, after).tx;
      && BlockPosition(t, bs)
      && tx.Emitted() == 0 && FcSoFar(tx, bs) == 0
      && (if t.Busy() then t.Emitted() == 1 && FcSoFar(t, bs) == 1 && t.state == WaitFc
          else DataFrames(|tx.Message()|) == 1 && FcFrames(|tx.Message()|, bs) == 0)
  {}

  lemma SilentCounts(s: Session, c: Setup, act: TxAct, o: TxOut)
    requires Count(s, c) && o == TxOut(s.tx, [], []) && !IsoTpSender.Starts(s.tx, act)
    ensures Count(Sent(s, act, o), c)
  {
    assert s.dataQ + [] == s.dataQ;
  }

  lemma TransmitCounts(s: Session, c: Setup, act: TxAct)
    requires Inv(s, c) && Count(s, c) && act.Transmit? && Quiet(s, c, Send(act))
    ensures Count(Step(s, c, Send(act)), c)
  {
    if IsoTpSender.Starts(s.tx, act) {
      var t := Loaded(s.tx, act.msg, act.now);
      if act.accept {
        FirstArrives(t, Ahead(s.rx.asm, c.rcfg.blockSize, s.dataQ).asm, c.rcfg.blockSize, act.after);
        IsoTpSender.FirstStep(t, true, act.after);
        FirstCosts(t, c.rcfg.blockSize, act.after);
        SentCounts(s, c, act, TxFirst(t, true, act.after), t);
      } else {
        assert s.dataQ + [] == s.dataQ;
        assert Step(s, c, Send(act)).tx == t;
        assert Finished(Step(s, c, Send(act))) == Finished(s);
      }
    } else {
      SilentCounts(s, c, act, TxStep(s.tx, c.nBs, act));
    }
  }

  lemma RetryCounts(s: Session, c: Setup, act: TxAct)
    requires Inv(s, c) && Count(s, c) && act.FirstRetry? && Quiet(s, c, Send(act))
    ensures Count(Step(s, c, Send(act)), c)
  {
    if s.tx.state == SendFirst && act.accept {
      FirstArrives(s.tx, Ahead(s.rx.asm, c.rcfg.blockSize, s.dataQ).asm, c.rcfg.blockSize, act.after);
      IsoTpSender.FirstStep(s.tx, true, act.after);
      FirstCosts(s.tx, c.rcfg.blockSize, act.after);
      SentCounts(s, c, act, TxFirst(s.tx, true, act.after), s.tx);
    } else {
      SilentCounts(s, c, act, TxStep(s.tx, c.nBs, act));
    }
  }

  lemma CfCounts(s: Session, c: Setup, act: TxAct)
    requires Inv(s, c) && Count(s, c) && act.Cf?
    ensures Count(Step(s, c, Send(act)), c)
  {
    if s.tx.state == SendCf && !CfBlocked(s.tx, act.check, act.accept) {
      CfArrives(s.tx, Ahead(s.rx.asm, c.rcfg.blockSize, s.dataQ).asm, c.rcfg.blockSize, act.check, act.record,
          act.block);
      IsoTpSender.CfPosition(s.tx, act.check, act.record, act.block);
      CfCosts(s.tx, c.rcfg.blockSize, act.check, act.record, act.block);
      SentCounts(s, c, act, TxCf(s.tx, act.check, true, act.record, act.block), s.tx);
    } else {
      SilentCounts(s, c, act, TxStep(s.tx, c.nBs, act));
    }
  }

  lemma PollCounts(s: Session, c: Setup, act: RxAct)
    requires Inv(s, c) && Count(s, c) && !act.Data? && Quiet(s, c, Poll(act))
    ensures Count(Step(s, c, Poll(act)), c)
  {
    hide Ahead, Match, Told;
    var o := RxStep(s.rx, c.rcfg, act);
    assert o.rx.asm == s.rx.asm;
  }

  /** A flow control frame that is due is sent or becomes pending. */
  lemma DuePaid(rx: Rx, cfg: Cfg, f: Frame, now: u32, accept: bool)
    requires rx.Valid()
    ensures var o := RxStep(rx, cfg, Data(f, CAN_DL, now, accept));
        var fc := AsmStep(rx.asm, cfg.blockSize, f, CAN_DL).fc;
      |o.sent| + (if o.rx.fcPending then 1 else 0) == if fc.Some? then 1 else if rx.fcPending then 1 else 0
  {
    hide AsmStep;
  }

  /** A frame that causes flow control is never consumed while an older one is pending. */
  lemma OneDue(s: Session, c: Setup)
    requires Inv(s, c) && s.dataQ != []
    ensures AsmStep(s.rx.asm, c.rcfg.blockSize, s.dataQ[0], CAN_DL).fc.Some? ==> !s.rx.fcPending
  {
    hide AsmStep, Match, Told, Current;
  }

  lemma DeliveryPays(s: Session, c: Setup, now: u32, accept: bool)
    requires Inv(s, c) && s.dataQ != []
    ensures var o := RxStep(s.rx, c.rcfg, Data(s.dataQ[0], CAN_DL, now, accept));
      |o.sent| + (if o.rx.fcPending then 1 else 0) + |Ahead(o.rx.asm, c.rcfg.blockSize, s.dataQ[1..]).fcs|
      == (if s.rx.fcPending then 1 else 0) + |Ahead(s.rx.asm, c.rcfg.blockSize, s.dataQ).fcs|
  {
    hide RxStep, AsmStep, Inv, Ahead;
    ValidHalves(s, c);
    DeliverView(s, c, now, accept);
    DuePaid(s.rx, c.rcfg, s.dataQ[0], now, accept);
    OneDue(s, c);
  }

  lemma ValidHalves(s: Session, c: Setup)
    requires Inv(s, c)
    ensures s.tx.Valid() && s.rx.Valid()
  {}

  lemma DeliveryCounts(s: Session, c: Setup, now: u32, accept: bool)
    requires Inv(s, c) && Count(s, c)
    ensures Count(Step(s, c, DeliverData(now, accept)), c)
  {
    hide RxStep, AsmStep, Inv, Ahead, FcSoFar, TotalData, TotalFc, BlockPosition, DataFrames, FcFrames;
    if s.dataQ != [] { DeliveryPays(s, c, now, accept); }
  }

  /** A continue-to-send changes no counter. */
  lemma CtsCosts(tx: Tx, cfg: Cfg, now: u32)
    requires tx.Valid() && tx.state == WaitFc && BlockPosition(tx, cfg.blockSize)
    ensures var t := TxFc(tx, FcFrame(FC_CTS, cfg.blockSize, cfg.stMin), CAN_DL, now).tx;
      && t.state == SendCf && t.Emitted() == tx.Emitted()
      && FcSoFar(t, cfg.blockSize) == FcSoFar(tx, cfg.blockSize) && BlockPosition(t, cfg.blockSize)
  {}

  lemma FcDeliveryCounts(s: Session, c: Setup, now: u32)
    requires Inv(s, c) && Count(s, c)
    ensures Count(Step(s, c, DeliverFc(now)), c)
  {
    if s.fcQ != [] {
      assert s.tx.state == WaitFc by { hide Ahead, Match, Told, Current; }
      CtsCosts(s.tx, c.rcfg, now);
      hide TxFc, Ahead, Match, Told, Current, TotalData, TotalFc, FcSoFar, BlockPosition;
      assert s.fcQ[0] == FcFrame(FC_CTS, c.rcfg.blockSize, c.rcfg.stMin);
    }
  }

  lemma {:induction false} CountStep(s: Session, c: Setup, act: Act)
    requires Inv(s, c) && Count(s, c) && Quiet(s, c, act)
    ensures Count(Step(s, c, act), c)
  {
    hide Inv, Count;
    match act
    case Send(t) =>
      if t.Transmit? { TransmitCounts(s, c, t); }
      else if t.FirstRetry? { RetryCounts(s, c, t); }
      else if t.BsCheck? { SilentCounts(s, c, t, TxOut(s.tx, [], [])); }
      else if t.Cf? { CfCounts(s, c, t); }
    case Poll(r) => if !r.Data? { PollCounts(s, c, r); }
    case DeliverData(now, accept) => DeliveryCounts(s, c, now, accept);
    case DeliverFc(now) => FcDeliveryCounts(s, c, now);
  }

  lemma {:induction false} RunInv(s: Session, c: Setup, acts: seq<Act>)
    requires Inv(s, c) && Count(s, c) && QuietRun(s, c, acts)
    ensures Inv(Run(s, c, acts), c) && Count(Run(s, c, acts), c)
    decreases |acts|
  {
    hide Step, Quiet, Ahead, Match, Told, Credit, Current, TotalData, TotalFc, FcSoFar, BlockPosition;
    if acts != [] {
      InvStep(s, c, acts[0]);
      CountStep(s, c, acts[0]);
      RunInv(Step(s, c, acts[0]), c, acts[1..]);
    }
  }

  lemma StartInv(txBuf: Buffer, rxBuf: Buffer, c: Setup)
    ensures Inv(Start(txBuf, rxBuf), c) && Count(Start(txBuf, rxBuf), c)
  {}

  /**
   * Any interleaving, any driver refusals, any clock readings that fire no timeout: once nothing is under
   * way, the frames on the bus are exactly those the accepted messages call for.
   */
  lemma ExactCost(txBuf: Buffer, rxBuf: Buffer, c: Setup, acts: seq<Act>)
    requires QuietRun(Start(txBuf, rxBuf), c, acts)
    requires Measure(Run(Start(txBuf, rxBuf), c, acts), c) == 0
    ensures var s := Run(Start(txBuf, rxBuf), c, acts);
      && s.inds == Oks(s.accepted)
      && s.dataSent == TotalData(s.accepted)
      && s.fcSent == TotalFc(s.accepted, c.rcfg.blockSize)
  {
    StartInv(txBuf, rxBuf, c);
    RunInv(Start(txBuf, rxBuf), c, acts);
    var s := Run(Start(txBuf, rxBuf), c, acts);
    hide Run;
    Settled(s, c);
  }

  /** The largest message with a block size of 8 takes 660 frames: 1 FF, 585 CF and 74 FC. */
  lemma LargestMessageCost(m: seq<u8>)
    requires |m| == MAX_MESSAGE_LEN
    ensures TotalData([m]) == 1 + 585 && TotalFc([m], 8) == 74
    ensures TotalData([m]) + TotalFc([m], 8) == 660
  {
    assert [m][..0] == [];
  }
}
