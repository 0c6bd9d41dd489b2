/**
 * One direction of traffic over channels that may lose any frame, with any timeout firing at any time, and what holds
 * in every state two links can get into.
 */
module IsoTpChannel {
  import opened Words
  import opened IsoTpModel
  import IsoTpReceiver
  import S = IsoTpSession

  datatype Act =
    | Step(act: S.Act)
    | DropData(i: nat)
    | DropFc(i: nat)

  ghost function Remove<T>(q: seq<T>, i: nat): seq<T> {
    if i < |q| then q[..i] + q[i + 1..] else q
  }

  /** An action of either link, a delivery, or a loss. */
  ghost function Happen(s: S.Session, c: S.Setup, act: Act): (r: S.Session)
    requires s.tx.Valid() && s.rx.Valid()
    ensures r.tx.Valid() && r.rx.Valid()
  {
    match act
    case Step(a) => S.Step(s, c, a)
    case DropData(i) => s.(dataQ := Remove(s.dataQ, i))
    case DropFc(i) => s.(fcQ := Remove(s.fcQ, i))
  }

  /** Any run, with any number of messages, losses and timeouts. */
  ghost function Conversation(s: S.Session, c: S.Setup, acts: seq<Act>): (r: S.Session)
    requires s.tx.Valid() && s.rx.Valid()
    ensures r.tx.Valid() && r.rx.Valid()
    decreases |acts|
  {
    if acts == [] then s else Happen(Conversation(s, c, acts[..|acts| - 1]), c, acts[|acts| - 1])
  }

  /** No second message. */
  ghost predicate SameTransfer(act: Act) { !(act.Step? && act.act.Send? && act.act.tact.Transmit?) }

  /** The consecutive frames the open reception has stored. */
  ghost function Stored(a: Asm): int { (a.offset - FF_DATA) / CF_MAX_DATA }

  ghost predicate IsCts(f: Frame) { f[0] % 16 == FC_CTS }

  // ---------------------------------------------------------------------------------------------
  // What holds in every reachable state
  // ---------------------------------------------------------------------------------------------

  /** An open reception stands at a frame boundary, expects the sequence number due there, and counts its block. */
  ghost predicate AtBoundary(a: Asm, bs: u8) {
    a.receiving ==>
      && a.offset == FF_DATA + CF_MAX_DATA * Stored(a) && a.sn == (Stored(a) + 1) % 16
      && (bs > 0 ==> a.blockCount < bs)
  }

  /** The flow control frames in flight are the receiver's own. */
  ghost predicate OwnFc(fcQ: seq<Frame>, cfg: Cfg) {
    forall i :: 0 <= i < |fcQ| ==>
      fcQ[i] == FcFrame(FC_CTS, cfg.blockSize, cfg.stMin) || fcQ[i] == FcFrame(FC_OVFLW, cfg.blockSize, cfg.stMin)
  }

  /** A first frame in flight announces no more than its sender's buffer holds. */
  ghost predicate Announced(q: seq<Frame>, room: nat) {
    forall i :: 0 <= i < |q| && Pci(q[i]) == 1 ==> IsoTpReceiver.FfLength(q[i]) <= room
  }

  ghost predicate Reachable(s: S.Session, c: S.Setup) {
    && s.tx.Valid() && s.rx.Valid() && AtBoundary(s.rx.asm, c.rcfg.blockSize) && OwnFc(s.fcQ, c.rcfg)
    && Announced(s.dataQ, |s.tx.buf|) && (s.rx.asm.receiving ==> s.rx.asm.length <= |s.tx.buf|)
  }

  lemma BoundaryKept(a: Asm, bs: u8, f: Frame, dlc: u8)
    requires a.Valid() && AtBoundary(a, bs)
    ensures AtBoundary(AsmStep(a, bs, f, dlc).asm, bs)
    ensures var o := AsmStep(a, bs, f, dlc);
      o.asm.receiving ==> o.asm.length == if Pci(f) == 1 && o.asm != a then IsoTpReceiver.FfLength(f) else a.length
    ensures AsmStep(a, bs, f, dlc).asm.receiving && !a.receiving ==> Pci(f) == 1
  {
    hide AsmStep, IsoTpReceiver.Begins, IsoTpReceiver.Continues;
    if IsoTpReceiver.Begins(a, f, dlc) {
      IsoTpReceiver.BeginStep(a, bs, [], f, dlc);
      BeginCount(a, bs, f, dlc);
    } else if IsoTpReceiver.Continues(a, f, dlc) {
      StoreKeeps(a, bs, f, dlc);
    } else { IsoTpReceiver.OtherStep(a, bs, f, dlc); }
  }

  lemma BeginCount(a: Asm, bs: u8, f: Frame, dlc: u8)
    requires a.Valid() && IsoTpReceiver.Begins(a, f, dlc)
    ensures var o := AsmStep(a, bs, f, dlc); o.asm.receiving ==> o.asm.blockCount == 0
  {}

  lemma StoreKeeps(a: Asm, bs: u8, f: Frame, dlc: u8)
    requires a.Valid() && AtBoundary(a, bs) && IsoTpReceiver.Continues(a, f, dlc)
    ensures var o := AsmStep(a, bs, f, dlc);
      && AtBoundary(o.asm, bs) && o.asm.length == a.length && Pci(f) == 2 && a.receiving
      && (o.asm.receiving ==> Stored(o.asm) == Stored(a) + 1)
  {
    hide AsmStep, Stored;
    IsoTpReceiver.StoredBytes(a, bs, f, dlc);
    StoreCount(a, bs, f, dlc);
    BoundaryNext(a, AsmStep(a, bs, f, dlc).asm, bs);
    IsConsecutive(a, f, dlc);
  }

  lemma IsConsecutive(a: Asm, f: Frame, dlc: u8)
    requires IsoTpReceiver.Continues(a, f, dlc)
    ensures Pci(f) == 2
  {}

  /** The block accounting of a stored frame: a full block asks for the next one. */
  lemma StoreCount(a: Asm, bs: u8, f: Frame, dlc: u8)
    requires a.Valid() && IsoTpReceiver.Continues(a, f, dlc) && (bs > 0 ==> a.blockCount < bs)
    ensures var o := AsmStep(a, bs, f, dlc); o.asm.receiving ==>
      if bs == 0 then o.fc == None
      else if a.blockCount + 1 == bs then o.asm.blockCount == 0 && o.fc == Some(FC_CTS)
      else o.asm.blockCount == a.blockCount + 1 < bs && o.fc == None
    ensures var o := AsmStep(a, bs, f, dlc); !o.asm.receiving ==> o.fc == None
  {}

  lemma BoundaryNext(a: Asm, b: Asm, bs: u8)
    requires a.receiving && AtBoundary(a, bs) && b.offset == a.offset + Min(a.length - a.offset, CF_MAX_DATA)
    requires b.sn == (a.sn + 1) % 16 && (b.receiving ==> b.offset < a.length && (bs > 0 ==> b.blockCount < bs))
    ensures AtBoundary(b, bs) && (b.receiving ==> Stored(b) == Stored(a) + 1)
  {
    hide Stored;
    if b.receiving {
      NextSn(Stored(a));
      StoredIs(b, Stored(a) + 1);
    }
  }

  lemma StoredIs(a: Asm, k: int)
    requires a.offset == FF_DATA + CF_MAX_DATA * k
    ensures Stored(a) == k
  {}

  lemma NextSn(k: int)
    ensures ((k + 1) % 16 + 1) % 16 == (k + 2) % 16
  {}

  lemma ReceiverKept(rx: Rx, cfg: Cfg, act: RxAct, fcQ: seq<Frame>, room: nat)
    requires rx.Valid() && AtBoundary(rx.asm, cfg.blockSize) && OwnFc(fcQ, cfg)
    requires rx.asm.receiving ==> rx.asm.length <= room
    requires act.Data? && Pci(act.data) == 1 ==> IsoTpReceiver.FfLength(act.data) <= room
    ensures var o := RxStep(rx, cfg, act);
      && AtBoundary(o.rx.asm, cfg.blockSize) && OwnFc(fcQ + o.sent, cfg)
      && (o.rx.asm.receiving ==> o.rx.asm.length <= room)
  {
    hide AsmStep, FcFrame, IsoTpReceiver.FfLength;
    if act.Data? { BoundaryKept(rx.asm, cfg.blockSize, act.data, act.dlc); }
  }

  lemma SentAnnounces(tx: Tx, nBs: u16, act: TxAct)
    requires tx.Valid()
    ensures var o := TxStep(tx, nBs, act); Announced(o.sent, |o.tx.buf|)
  {
    var o := TxStep(tx, nBs, act);
    if o.sent != [] && Pci(o.sent[0]) == 1 && (act.Transmit? || act.FirstRetry?) {
      hide TxStep;
      TxFirstAnnounces(if act.Transmit? then Loaded(tx, act.msg, act.now) else tx, act.after);
    }
  }

  lemma TxFirstAnnounces(tx: Tx, after: u32)
    requires tx.Valid() && tx.state == SendFirst
    ensures Announced(TxFirst(tx, true, after).sent, |tx.buf|)
  {
    HighLow(tx.length);
  }

  lemma HighLow(n: int)
    requires 0 <= n <= MAX_MESSAGE_LEN
    ensures (0x10 + n / 256) % 16 * 256 + n % 256 == n
  {}

  lemma AnnouncedAppend(q: seq<Frame>, r: seq<Frame>, room: nat)
    requires Announced(q, room) && Announced(r, room)
    ensures Announced(q + r, room)
  {}

  lemma StepReachable(s: S.Session, c: S.Setup, act: Act)
    requires Reachable(s, c)
    ensures Reachable(Happen(s, c, act), c)
  {
    hide RxStep, TxStep, AtBoundary, FcFrame, IsoTpReceiver.FfLength;
    if act.Step? {
      if act.act.Send? && !act.act.tact.Fc? {
        SentAnnounces(s.tx, c.nBs, act.act.tact);
        AnnouncedAppend(s.dataQ, TxStep(s.tx, c.nBs, act.act.tact).sent, |s.tx.buf|);
      }
      if act.act.Poll? && !act.act.ract.Data? { ReceiverKept(s.rx, c.rcfg, act.act.ract, s.fcQ, |s.tx.buf|); }
      if act.act.DeliverData? && s.dataQ != [] {
        ReceiverKept(s.rx, c.rcfg, Data(s.dataQ[0], CAN_DL, act.act.now, act.act.accept), s.fcQ, |s.tx.buf|);
      }
    }
  }

  /** Every state that two links can get into, with any losses and timeouts. */
  lemma {:induction false} AlwaysReachable(txBuf: Buffer, rxBuf: Buffer, c: S.Setup, acts: seq<Act>)
    ensures Reachable(Conversation(S.Session(IdleTx(txBuf), IdleRx(rxBuf), [], [], [], [], 0, 0), c, acts), c)
    decreases |acts|
  {
    hide Happen;
    if acts != [] {
      AlwaysReachable(txBuf, rxBuf, c, acts[..|acts| - 1]);
      var s0 := S.Session(IdleTx(txBuf), IdleRx(rxBuf), [], [], [], [], 0, 0);
      StepReachable(Conversation(s0, c, acts[..|acts| - 1]), c, acts[|acts| - 1]);
    }
  }
}
