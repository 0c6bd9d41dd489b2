/**
 * One direction of traffic between two links: the sender half of one, the receiver half of the other, the
 * FIFO of data frames between them and the FIFO of flow control frames back.
 *
 * The state the proofs follow is the receiver as it will be once it has consumed every data frame in
 * flight (`Ahead`). At every moment this caught-up receiver agrees with the sender (`Match`), and exactly
 * one flow control frame is queued, pending or still to be caused while the sender waits for one.
 */
module IsoTpSession {
  import opened Words
  import opened IsoTpModel
  import opened IsoTpSender

  /** `dataSent`, `fcSent`: how many frames were ever put on either FIFO. */
  datatype Session = Session(
    tx: Tx, rx: Rx, dataQ: seq<Frame>, fcQ: seq<Frame>,
    accepted: seq<seq<u8>>, inds: seq<Ind>, dataSent: nat, fcSent: nat)

  /** The sender's N_Bs and the receiver's configuration. */
  datatype Setup = Setup(nBs: u16, rcfg: Cfg)

  datatype Act =
    /** Transmit, or a sender part of IsoTp_MainFunction. */
    | Send(tact: TxAct)
    /** A receiver part of IsoTp_MainFunction. */
    | Poll(ract: RxAct)
    | DeliverData(now: u32, accept: bool)
    | DeliverFc(now: u32)

  ghost function Sent(s: Session, act: TxAct, o: TxOut): Session {
    s.(tx := o.tx, dataQ := s.dataQ + o.sent, dataSent := s.dataSent + |o.sent|,
       accepted := if Starts(s.tx, act) then s.accepted + [act.msg] else s.accepted)
  }

  ghost function Received(s: Session, dataQ: seq<Frame>, o: RxOut): Session {
    s.(rx := o.rx, dataQ := dataQ, fcQ := s.fcQ + o.sent, fcSent := s.fcSent + |o.sent|, inds := s.inds + o.inds)
  }

  /** An action that is not possible changes nothing. */
  ghost function Step(s: Session, c: Setup, act: Act): (r: Session)
    requires s.tx.Valid() && s.rx.Valid()
    ensures r.tx.Valid() && r.rx.Valid()
  {
    match act
    case Send(tact) =>
      if tact.Fc? then s else Sent(s, tact, TxStep(s.tx, c.nBs, tact))
    case Poll(ract) =>
      if ract.Data? then s else Received(s, s.dataQ, RxStep(s.rx, c.rcfg, ract))
    case DeliverData(now, accept) =>
      if s.dataQ == [] then s
      else Received(s, s.dataQ[1..], RxStep(s.rx, c.rcfg, Data(s.dataQ[0], CAN_DL, now, accept)))
    case DeliverFc(now) =>
      if s.fcQ == [] then s else s.(tx := TxStep(s.tx, c.nBs, Fc(s.fcQ[0], CAN_DL, now)).tx, fcQ := s.fcQ[1..])
  }

  /** The sender's N_Bs timer does not expire in this action. */
  ghost predicate TxQuiet(tx: Tx, nBs: u16, act: TxAct) {
    match act
    case FirstRetry(accept, _, now) => tx.state == SendFirst && !accept ==> Elapsed(now, tx.timerStart) < nBs
    case BsCheck(now) => tx.state == WaitFc ==> Elapsed(now, tx.timerStart) < nBs
    case _ => true
  }

  /** The receiver's N_Cr timer does not expire in this action. */
  ghost predicate RxQuiet(rx: Rx, nCr: u16, act: RxAct) {
    act.CrCheck? && rx.asm.receiving ==> Elapsed(act.now, rx.timerStart) < nCr
  }

  /** No timeout fires, and an accepted message fits the peer's buffer. */
  ghost predicate Quiet(s: Session, c: Setup, act: Act) {
    match act
    case Send(tact) =>
      && TxQuiet(s.tx, c.nBs, tact)
      && (Starts(s.tx, tact) ==> |tact.msg| <= |s.rx.asm.buf|)
    case Poll(ract) => RxQuiet(s.rx, c.rcfg.nCr, ract)
    case _ => true
  }

  // ---------------------------------------------------------------------------------------------
  // The caught-up receiver
  // ---------------------------------------------------------------------------------------------

  datatype View = View(asm: Asm, inds: seq<Ind>, fcs: seq<u8>)

  ghost function FcList(fc: Option<u8>): seq<u8> { if fc.Some? then [fc.value] else [] }

  ghost function Ahead(a: Asm, bs: u8, q: seq<Frame>): (v: View)
    requires a.Valid()
    ensures v.asm.Valid() && |v.asm.buf| == |a.buf|
    decreases |q|
  {
    if q == [] then View(a, [], [])
    else
      var o := AsmStep(a, bs, q[0], CAN_DL);
      var v := Ahead(o.asm, bs, q[1..]);
      View(v.asm, o.inds + v.inds, FcList(o.fc) + v.fcs)
  }

  lemma {:induction false} AheadAppend(a: Asm, bs: u8, q: seq<Frame>, f: Frame)
    requires a.Valid()
    ensures var v := Ahead(a, bs, q); var o := AsmStep(v.asm, bs, f, CAN_DL);
      Ahead(a, bs, q + [f]) == View(o.asm, v.inds + o.inds, v.fcs + FcList(o.fc))
    decreases |q|
  {
    hide AsmStep;
    if q == [] {
      assert [f][1..] == [];
      assert q + [f] == [f];
    } else {
      AheadAppend(AsmStep(a, bs, q[0], CAN_DL).asm, bs, q[1..], f);
      assert (q + [f])[1..] == q[1..] + [f];
    }
  }

  /** The sender and a receiver that has consumed everything sent agree on the message in progress. */
  ghost predicate Match(tx: Tx, a: Asm, bs: u8) {
    if tx.Valid() && tx.Streaming() then
      && a.Valid() && a.receiving
      && a.length == tx.length && a.offset == tx.offset && a.sn == tx.sn
      && a.buf[..a.offset] == tx.buf[..tx.offset]
      && (tx.state == SendCf ==> tx.blockSize == bs)
      && (bs != 0 ==> a.blockCount == if tx.state == SendCf then tx.blockCount else 0)
    else !a.receiving
  }

  lemma FirstArrives(tx: Tx, a: Asm, bs: u8, after: u32)
    requires tx.Valid() && tx.state == SendFirst && a.Valid() && !a.receiving && tx.length <= |a.buf|
    ensures |TxFirst(tx, true, after).sent| == 1
    ensures var o := TxFirst(tx, true, after); var r := AsmStep(a, bs, o.sent[0], CAN_DL);
      && Match(o.tx, r.asm, bs)
      && (o.tx.Busy() ==> o.tx.state == WaitFc && r.inds == [] && r.fc == Some(FC_CTS))
      && (!o.tx.Busy() ==> r.inds == [Ind(tx.Message(), Ok)] && r.fc == None)
  {
    var f := TxFirst(tx, true, after).sent[0];
    if tx.length <= SF_MAX_DATA {
      assert f[1..1 + tx.length] == tx.Message();
    } else {
      assert f[2..] == tx.buf[..FF_DATA];
    }
  }

  /** The bytes of a consecutive frame land where the receiver expects them. */
  lemma CfStored(tx: Tx, a: Asm, f: Frame)
    requires tx.Valid() && tx.state == SendCf && a.Valid() && a.receiving
    requires a.length == tx.length && a.offset == tx.offset && a.buf[..a.offset] == tx.buf[..tx.offset]
    requires f == Pad([0x20 + tx.sn] + tx.buf[tx.offset..tx.offset + Chunk(tx)])
    ensures var n := Chunk(tx);
      && Pci(f) == 2 && f[0] % 16 == tx.sn
      && Overwrite(a.buf, a.offset, f[1..1 + n])[..a.offset + n] == tx.buf[..tx.offset + n]
  {
    var n := Chunk(tx);
    assert f[1..1 + n] == tx.buf[tx.offset..tx.offset + n];
    assert tx.buf[..tx.offset + n] == tx.buf[..tx.offset] + tx.buf[tx.offset..tx.offset + n];
  }

  lemma CfArrives(tx: Tx, a: Asm, bs: u8, check: u32, record: u32, block: u32)
    requires tx.Valid() && tx.state == SendCf && a.Valid() && Match(tx, a, bs) && !CfBlocked(tx, check, true)
    ensures |TxCf(tx, check, true, record, block).sent| == 1
    ensures var o := TxCf(tx, check, true, record, block); var r := AsmStep(a, bs, o.sent[0], CAN_DL);
      && Match(o.tx, r.asm, bs)
      && r.fc == (if o.tx.state == WaitFc then Some(FC_CTS) else None)
      && r.inds == (if o.tx.Busy() then [] else [Ind(tx.Message(), Ok)])
  {
    var o := TxCf(tx, check, true, record, block);
    CfStored(tx, a, o.sent[0]);
    hide Pad, Overwrite;
  }

  // ---------------------------------------------------------------------------------------------
  // The invariant
  // ---------------------------------------------------------------------------------------------

  /** What the application is told when these messages arrive. */
  ghost function Oks(ms: seq<seq<u8>>): seq<Ind> { seq(|ms|, i requires 0 <= i < |ms| => Ind(ms[i], Ok)) }

  /** The accepted messages whose last frame is out. */
  ghost function Finished(s: Session): seq<seq<u8>> {
    if s.tx.Busy() && s.accepted != [] then s.accepted[..|s.accepted| - 1] else s.accepted
  }

  /** What was and will be indicated are exactly the messages `ms`, in order. */
  ghost predicate Told(now: seq<Ind>, later: seq<Ind>, ms: seq<seq<u8>>) { now + later == Oks(ms) }

  ghost predicate AllCts(fcs: seq<u8>) { forall i :: 0 <= i < |fcs| ==> fcs[i] == FC_CTS }

  /** Exactly one continue-to-send is under way while the sender waits for it, none otherwise. */
  ghost predicate Credit(tx: Tx, rx: Rx, fcQ: seq<Frame>, fcs: seq<u8>, cfg: Cfg) {
    && |fcQ| + (if rx.fcPending then 1 else 0) + |fcs| == (if tx.state == WaitFc then 1 else 0)
    && AllCts(fcs)
    && (rx.fcPending ==> rx.fcStatus == FC_CTS)
    && (forall i :: 0 <= i < |fcQ| ==> fcQ[i] == FcFrame(FC_CTS, cfg.blockSize, cfg.stMin))
  }

  ghost predicate Current(tx: Tx, accepted: seq<seq<u8>>, room: nat) {
    tx.Valid() &&
    (tx.Busy() ==> tx.length <= room && accepted != [] && accepted[|accepted| - 1] == tx.Message())
  }

  ghost predicate Inv(s: Session, c: Setup) {
    && s.tx.Valid() && s.rx.Valid()
    && Current(s.tx, s.accepted, |s.rx.asm.buf|)
    && var v := Ahead(s.rx.asm, c.rcfg.blockSize, s.dataQ);
    && Match(s.tx, v.asm, c.rcfg.blockSize)
    && Told(s.inds, v.inds, Finished(s))
    && Credit(s.tx, s.rx, s.fcQ, v.fcs, c.rcfg)
  }

  lemma ToldMore(now: seq<Ind>, later: seq<Ind>, ms: seq<seq<u8>>, m: seq<u8>)
    requires Told(now, later, ms)
    ensures Told(now, later + [Ind(m, Ok)], ms + [m])
  {
    assert now + (later + [Ind(m, Ok)]) == (now + later) + [Ind(m, Ok)];
  }

  lemma ToldSooner(now: seq<Ind>, next: seq<Ind>, later: seq<Ind>, ms: seq<seq<u8>>)
    requires Told(now, next + later, ms)
    ensures Told(now + next, later, ms)
  {
    assert now + (next + later) == (now + next) + later;
  }

  /** The message a sent frame belongs to is the last accepted one. */
  lemma SentFinishes(s: Session, act: TxAct, o: TxOut, before: Tx)
    requires Current(s.tx, s.accepted, |s.rx.asm.buf|) && before.Valid() && before.Busy()
    requires if Starts(s.tx, act) then !s.tx.Busy() && before.Message() == act.msg else before == s.tx
    ensures var s' := Sent(s, act, o); var m := before.Message();
      && s'.accepted == Finished(s) + [m]
      && Finished(s') == if o.tx.Busy() then Finished(s) else Finished(s) + [m]
  {
    var s' := Sent(s, act, o);
    assert Finished(s) == s'.accepted[..|s'.accepted| - 1];
  }

  lemma CreditSent(tx: Tx, tx': Tx, rx: Rx, fcQ: seq<Frame>, fcs: seq<u8>, cfg: Cfg)
    requires Credit(tx, rx, fcQ, fcs, cfg) && tx.state != WaitFc
    ensures Credit(tx', rx, fcQ, fcs + FcList(if tx'.state == WaitFc then Some(FC_CTS) else None), cfg)
  {}

  /** A frame leaves the sender: what the caught-up receiver makes of it keeps the invariant. */
  lemma SentKeepsInv(s: Session, c: Setup, act: TxAct, o: TxOut, before: Tx)
    requires Inv(s, c) && !act.Fc?
    requires before.Valid() && before.Busy()
        && before.Message() == (if Starts(s.tx, act) then act.msg else before.Message())
    requires !Starts(s.tx, act) ==> before == s.tx
    requires Starts(s.tx, act) ==> !s.tx.Busy()
    requires before.length <= |s.rx.asm.buf| && before.state != WaitFc
    requires o.tx.Valid() && |o.sent| == 1 && (o.tx.Busy() ==> o.tx.Message() == before.Message())
    requires var v := Ahead(s.rx.asm, c.rcfg.blockSize, s.dataQ);
        var r := AsmStep(v.asm, c.rcfg.blockSize, o.sent[0], CAN_DL);
      && Match(o.tx, r.asm, c.rcfg.blockSize)
      && r.fc == (if o.tx.state == WaitFc then Some(FC_CTS) else None)
      && r.inds == (if o.tx.Busy() then [] else [Ind(before.Message(), Ok)])
    ensures Inv(Sent(s, act, o), c)
  {
    hide AsmStep, Match, Ahead, Told, Credit, FcList;
    var bs := c.rcfg.blockSize;
    var v := Ahead(s.rx.asm, bs, s.dataQ);
    CreditSent(s.tx, o.tx, s.rx, s.fcQ, v.fcs, c.rcfg);
    AheadAppend(s.rx.asm, bs, s.dataQ, o.sent[0]);
    assert o.sent == [o.sent[0]];
    SentFinishes(s, act, o, before);
    hide Finished;
    ToldMore(s.inds, v.inds, Finished(s), before.Message());
    assert v.inds + [] == v.inds;
  }

  /** Nothing leaves the sender, and it stays where it is. */
  lemma SilentKeepsInv(s: Session, c: Setup, act: TxAct, o: TxOut)
    requires Inv(s, c) && !act.Fc? && o == TxOut(s.tx, [], []) && !Starts(s.tx, act)
    ensures Inv(Sent(s, act, o), c)
  {
    assert s.dataQ + [] == s.dataQ;
    assert Sent(s, act, o) == s;
  }

  lemma TransmitKeepsInv(s: Session, c: Setup, act: TxAct)
    requires Inv(s, c) && act.Transmit? && Quiet(s, c, Send(act))
    ensures Inv(Step(s, c, Send(act)), c)
  {
    if Starts(s.tx, act) {
      var t := Loaded(s.tx, act.msg, act.now);
      var v := Ahead(s.rx.asm, c.rcfg.blockSize, s.dataQ);
      if act.accept {
        FirstArrives(t, v.asm, c.rcfg.blockSize, act.after);
        FirstStep(t, true, act.after);
        SentKeepsInv(s, c, act, TxFirst(t, true, act.after), t);
      } else {
        assert s.dataQ + [] == s.dataQ;
        var s' := Step(s, c, Send(act));
        assert s'.tx == t;
        assert Finished(s') == Finished(s);
      }
    } else {
      SilentKeepsInv(s, c, act, TxStep(s.tx, c.nBs, act));
    }
  }

  lemma RetryKeepsInv(s: Session, c: Setup, act: TxAct)
    requires Inv(s, c) && act.FirstRetry? && Quiet(s, c, Send(act))
    ensures Inv(Step(s, c, Send(act)), c)
  {
    if s.tx.state == SendFirst && act.accept {
      var v := Ahead(s.rx.asm, c.rcfg.blockSize, s.dataQ);
      FirstArrives(s.tx, v.asm, c.rcfg.blockSize, act.after);
      FirstStep(s.tx, true, act.after);
      SentKeepsInv(s, c, act, TxFirst(s.tx, true, act.after), s.tx);
    } else {
      SilentKeepsInv(s, c, act, TxStep(s.tx, c.nBs, act));
    }
  }

  lemma CfKeepsInv(s: Session, c: Setup, act: TxAct)
    requires Inv(s, c) && act.Cf?
    ensures Inv(Step(s, c, Send(act)), c)
  {
    if s.tx.state == SendCf && !CfBlocked(s.tx, act.check, act.accept) {
      var v := Ahead(s.rx.asm, c.rcfg.blockSize, s.dataQ);
      CfArrives(s.tx, v.asm, c.rcfg.blockSize, act.check, act.record, act.block);
      CfPosition(s.tx, act.check, act.record, act.block);
      SentKeepsInv(s, c, act, TxCf(s.tx, act.check, true, act.record, act.block), s.tx);
    } else {
      SilentKeepsInv(s, c, act, TxStep(s.tx, c.nBs, act));
    }
  }

  lemma PollKeepsInv(s: Session, c: Setup, act: RxAct)
    requires Inv(s, c) && !act.Data? && Quiet(s, c, Poll(act))
    ensures Inv(Step(s, c, Poll(act)), c)
  {
    hide Ahead, Match, Told;
    var o := RxStep(s.rx, c.rcfg, act);
    assert o.rx.asm == s.rx.asm && o.inds == [];
    assert s.inds + [] == s.inds;
    assert s.fcQ + [] == s.fcQ;
  }

  /** The flow control frame a delivered data frame was due to cause is now queued or pending. */
  lemma CreditMoves(tx: Tx, rx: Rx, next: Rx, fcQ: seq<Frame>, fc: Option<u8>, inds: seq<Ind>, rest: seq<u8>,
      cfg: Cfg, accept: bool)
    requires rx.Valid() && Credit(tx, rx, fcQ, FcList(fc) + rest, cfg)
    requires fc.Some? ==> fc.value in {FC_CTS, FC_OVFLW}
    requires next.Valid() && next.fcPending == rx.fcPending && next.fcStatus == rx.fcStatus
    ensures var o := if fc.Some? then SendFc(next, cfg, fc.value, accept, inds) else RxOut(next, [], inds);
      Credit(tx, o.rx, fcQ + o.sent, rest, cfg)
  {
    if fc.Some? { assert (FcList(fc) + rest)[0] == fc.value; }
    forall i | 0 <= i < |rest| ensures rest[i] == FC_CTS { assert (FcList(fc) + rest)[i + |FcList(fc)|] == rest[i]; }
  }

  /** Consuming the head of the queue leaves the caught-up receiver where it was. */
  lemma DeliverView(s: Session, c: Setup, now: u32, accept: bool)
    requires s.rx.Valid() && s.dataQ != []
    ensures var o := RxStep(s.rx, c.rcfg, Data(s.dataQ[0], CAN_DL, now, accept));
      var v := Ahead(s.rx.asm, c.rcfg.blockSize, s.dataQ);
      var v' := Ahead(o.rx.asm, c.rcfg.blockSize, s.dataQ[1..]);
      && v'.asm == v.asm
      && v.inds == o.inds + v'.inds
      && v.fcs == FcList(AsmStep(s.rx.asm, c.rcfg.blockSize, s.dataQ[0], CAN_DL).fc) + v'.fcs
  {
    hide AsmStep, SendFc;
    var r := AsmStep(s.rx.asm, c.rcfg.blockSize, s.dataQ[0], CAN_DL);
    var next := s.rx.(asm := r.asm, timerStart := if r.rearm then now else s.rx.timerStart);
    SendFcKeeps(next, c.rcfg, r.fc, accept, r.inds);
  }

  lemma DeliverCredit(s: Session, c: Setup, now: u32, accept: bool)
    requires Inv(s, c) && s.dataQ != []
    ensures var o := RxStep(s.rx, c.rcfg, Data(s.dataQ[0], CAN_DL, now, accept));
      Credit(s.tx, o.rx, s.fcQ + o.sent, Ahead(o.rx.asm, c.rcfg.blockSize, s.dataQ[1..]).fcs, c.rcfg)
  {
    DeliverView(s, c, now, accept);
    hide AsmStep, Match, Credit, SendFc, Told, Finished, Current, Ahead;
    var r := AsmStep(s.rx.asm, c.rcfg.blockSize, s.dataQ[0], CAN_DL);
    var next := s.rx.(asm := r.asm, timerStart := if r.rearm then now else s.rx.timerStart);
    var o := RxStep(s.rx, c.rcfg, Data(s.dataQ[0], CAN_DL, now, accept));
    CreditMoves(s.tx, s.rx, next, s.fcQ, r.fc, r.inds, Ahead(o.rx.asm, c.rcfg.blockSize, s.dataQ[1..]).fcs, c.rcfg,
        accept);
  }

  lemma DeliverDataKeepsInv(s: Session, c: Setup, now: u32, accept: bool)
    requires Inv(s, c)
    ensures Inv(Step(s, c, DeliverData(now, accept)), c)
  {
    if s.dataQ != [] {
      DeliverView(s, c, now, accept);
      DeliverCredit(s, c, now, accept);
      hide RxStep, AsmStep, Match, Credit, SendFc, Current, Ahead, Told;
      var o := RxStep(s.rx, c.rcfg, Data(s.dataQ[0], CAN_DL, now, accept));
      ToldSooner(s.inds, o.inds, Ahead(o.rx.asm, c.rcfg.blockSize, s.dataQ[1..]).inds, Finished(s));
    }
  }

  lemma SendFcKeeps(rx: Rx, cfg: Cfg, fc: Option<u8>, accept: bool, inds: seq<Ind>)
    requires rx.Valid() && (fc.Some? ==> fc.value in {FC_CTS, FC_OVFLW})
    ensures fc.Some? ==> var o := SendFc(rx, cfg, fc.value, accept, inds); o.rx.asm == rx.asm && o.inds == inds
  {}

  lemma DeliverFcKeepsInv(s: Session, c: Setup, now: u32)
    requires Inv(s, c)
    ensures Inv(Step(s, c, DeliverFc(now)), c)
  {
    if s.fcQ != [] {
      hide Ahead, Told;
      assert s.fcQ[0] == FcFrame(FC_CTS, c.rcfg.blockSize, c.rcfg.stMin);
    }
  }

  lemma {:induction false} InvStep(s: Session, c: Setup, act: Act)
    requires Inv(s, c) && Quiet(s, c, act)
    ensures Inv(Step(s, c, act), c)
  {
    hide Inv;
    match act
    case Send(tact) =>
      if tact.Transmit? { TransmitKeepsInv(s, c, tact); }
      else if tact.FirstRetry? { RetryKeepsInv(s, c, tact); }
      else if tact.BsCheck? { SilentKeepsInv(s, c, tact, TxOut(s.tx, [], [])); }
      else if tact.Cf? { CfKeepsInv(s, c, tact); }
    case Poll(ract) => if !ract.Data? { PollKeepsInv(s, c, ract); }
    case DeliverData(now, accept) => DeliverDataKeepsInv(s, c, now, accept);
    case DeliverFc(now) => DeliverFcKeepsInv(s, c, now);
  }
}
