/**
 * What the sender and receiver theorems say about a link object: everything it ever sent and reported.
 */
module IsoTpHistory {
  import opened Words
  import opened IsoTpModel
  import IsoTpSender
  import IsoTpReceiver
  import opened IsoTpLink

  /** The frames of all confirmed messages, in order. */
  ghost function Frames(done: seq<IsoTpSender.Transfer>): seq<Frame> {
    if done == [] then [] else Frames(done[..|done| - 1]) + done[|done| - 1].frames
  }

  /** The side's frames and confirmations are those of the monitored run. */
  ghost predicate SameTx(s: TxSide, w: IsoTpSender.Monitor) {
    && s.tx == w.tx
    && s.sent == Frames(w.done) + (if w.tx.Busy() then w.frames else [])
    && |s.confs| == |w.done|
    && forall i :: 0 <= i < |w.done| ==> s.confs[i] == w.done[i].conf
  }

  lemma FramesMore(done: seq<IsoTpSender.Transfer>, t: IsoTpSender.Transfer)
    ensures Frames(done + [t]) == Frames(done) + t.frames
  {
    assert (done + [t])[..|done|] == done;
  }

  /** One step's bookkeeping on both sides. */
  lemma RecordSame(s: TxSide, w: IsoTpSender.Monitor, accepted: seq<seq<u8>>, before: seq<Frame>, o: TxOut, burst: nat)
    requires s.sent == Frames(w.done) + before && |s.confs| == |w.done|
    requires forall i :: 0 <= i < |w.done| ==> s.confs[i] == w.done[i].conf
    requires if o.tx.Busy() then o.confs == [] else |o.confs| == 1
    ensures SameTx(TxSide(o.tx, s.sent + o.sent, s.confs + o.confs), IsoTpSender.Record(w, accepted, before, o, burst))
  {
    var w' := IsoTpSender.Record(w, accepted, before, o, burst);
    assert (Frames(w.done) + before) + o.sent == Frames(w.done) + (before + o.sent);
    if o.tx.Busy() {
      assert w'.done == w.done && s.confs + [] == s.confs;
    } else {
      assert w'.done == w.done + [w'.done[|w.done|]];
      FramesMore(w.done, w'.done[|w.done|]);
    }
  }

  lemma IdleSame(s: TxSide, w: IsoTpSender.Monitor, burst: nat)
    requires SameTx(s, w) && !w.tx.Busy()
    ensures SameTx(TxSide(s.tx, s.sent + [], s.confs + []),
        IsoTpSender.Record(w, w.accepted, w.frames, TxOut(w.tx, [], []), burst))
  {
    assert s.sent + [] == s.sent && s.confs + [] == s.confs;
    assert IsoTpSender.Record(w, w.accepted, w.frames, TxOut(w.tx, [], []), burst).done == w.done;
  }

  lemma SameStep(s: TxSide, w: IsoTpSender.Monitor, nBs: u16, act: TxAct)
    requires s.tx.Valid() && SameTx(s, w) && IsoTpSender.Inv(w)
    ensures SameTx(TxDo(s, nBs, act), IsoTpSender.Watch(w, nBs, act))
  {
    hide TxStep, Segment, IsoTpSender.DoneInv, IsoTpSender.BurstInv, IsoTpSender.Record, IsoTpSender.Burst, Frames;
    var o := TxStep(w.tx, nBs, act);
    var b := IsoTpSender.Burst(w, act, o);
    if IsoTpSender.Starts(w.tx, act) {
      IsoTpSender.BusyStep(w.tx, nBs, act);
      IdleAtStart(w.tx, act);
      RecordSame(s, w, w.accepted + [act.msg], [], o, b);
    } else if w.tx.Busy() {
      IsoTpSender.BusyStep(w.tx, nBs, act);
      RecordSame(s, w, w.accepted, w.frames, o, b);
    } else {
      IsoTpSender.IdleStep(w.tx, nBs, act);
      IdleSame(s, w, b);
    }
  }

  lemma IdleAtStart(tx: Tx, act: TxAct)
    requires IsoTpSender.Starts(tx, act)
    ensures !tx.Busy()
  {}

  lemma {:induction false} SameRun(buf: Buffer, nBs: u16, acts: seq<TxAct>)
    ensures SameTx(TxAll(TxSide(IdleTx(buf), [], []), nBs, acts), IsoTpSender.Run(IsoTpSender.Idle(buf), nBs, acts))
    decreases |acts|
  {
    hide TxDo, IsoTpSender.Watch;
    if acts != [] {
      var before := acts[..|acts| - 1];
      SameRun(buf, nBs, before);
      IsoTpSender.RunInv(IsoTpSender.Idle(buf), nBs, before);
      SameStep(TxAll(TxSide(IdleTx(buf), [], []), nBs, before), IsoTpSender.Run(IsoTpSender.Idle(buf), nBs, before),
          nBs, acts[|acts| - 1]);
    }
  }

  ghost predicate SameRx(s: RxSide, w: IsoTpReceiver.Monitor) {
    && s.rx == w.rx && |s.inds| == |w.log|
    && forall i :: 0 <= i < |s.inds| ==> s.inds[i] == w.log[i].ind
  }

  lemma {:induction false} SameRxRun(buf: Buffer, cfg: Cfg, acts: seq<RxAct>)
    ensures SameRx(RxAll(RxSide(IdleRx(buf), [], []), cfg, acts), IsoTpReceiver.Run(IsoTpReceiver.Idle(buf), cfg, acts))
    decreases |acts|
  {
    hide RxStep;
    if acts != [] { SameRxRun(buf, cfg, acts[..|acts| - 1]); }
  }

  /**
   * For every link object, at any time: the frames on the bus are, message by message, prefixes of the
   * segmentations of the accepted messages; each message has been confirmed exactly once or is in progress, and
   * Ok was confirmed exactly for those sent in full.
   */
  lemma SentHistory(link: Link)
    requires link.Valid()
    ensures var w := IsoTpSender.Run(IsoTpSender.Idle(link.txBuf0), link.cfg.nBs, link.txActs);
      && SameTx(link.TxNow(), w)
      && |w.accepted| == |link.confs| + (if link.TxOf().Busy() then 1 else 0)
      && (forall i :: 0 <= i < |w.done| ==> w.done[i].msg == w.accepted[i] && IsoTpSender.Accounted(w.done[i]))
  {
    SameRun(link.txBuf0, link.cfg.nBs, link.txActs);
    IsoTpSender.SenderFollowsMessages(link.txBuf0, link.cfg.nBs, link.txActs);
  }

  /** For every link object: each Ok indication is the reassembly of frames that arrived, in order and in full. */
  lemma ReceivedHistory(link: Link)
    requires link.Valid()
    ensures var w := IsoTpReceiver.Run(IsoTpReceiver.Idle(link.rxBuf0), link.cfg, link.rxActs);
      && SameRx(link.RxNow(), w)
      && w.started == |link.inds| + (if link.rxReceiving then 1 else 0)
      && (forall i :: 0 <= i < |link.inds| && link.inds[i].result == Ok ==>
            IsoTpReceiver.Justified(w.history, w.log[i].at, link.inds[i].data))
  {
    SameRxRun(link.rxBuf0, link.cfg, link.rxActs);
    IsoTpReceiver.IndicationsAreReassemblies(link.rxBuf0, link.cfg, link.rxActs);
  }
}
