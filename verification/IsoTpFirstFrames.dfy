/**
 * Any number of messages over a lossy channel with timeouts: as long as no first frame is lost, every Ok indication
 * is an accepted message, in order and at most once.
 *
 * A first frame closes whatever reception was open, so the frames that follow it can only continue its own message.
 */
module IsoTpFirstFrames {
  import opened Words
  import opened IsoTpModel
  import IsoTpReceiver
  import IsoTpSender
  import S = IsoTpSession
  import opened IsoTpChannel
  import opened IsoTpLossy

  /** Frame number `frame` of the accepted message number `msg`. */
  datatype Pos = Pos(msg: int, frame: int)

  ghost predicate Before(p: Pos, q: Pos) { p.msg < q.msg || (p.msg == q.msg && p.frame < q.frame) }

  /** The position of the frame the sender will send next. */
  ghost function Cut(s: S.Session): Pos
    requires s.tx.Valid()
  {
    if s.tx.Busy() then Pos(|s.accepted| - 1, s.tx.Emitted()) else Pos(|s.accepted|, 0)
  }

  /** The sender works on the message accepted last. */
  ghost predicate Current(s: S.Session, from: nat) {
    && s.tx.Valid() && from <= |s.accepted|
    && (forall k :: from <= k < |s.accepted| ==> IsMessage(s.accepted[k]))
    && (s.tx.Busy() ==> from < |s.accepted| && s.tx.Message() == s.accepted[|s.accepted| - 1])
  }

  /** Frame f stands at position p of the accepted messages. */
  ghost predicate Stands(f: Frame, p: Pos, accepted: seq<seq<u8>>, from: nat) {
    && from <= p.msg < |accepted| && IsMessage(accepted[p.msg])
    && 0 <= p.frame < |Segment(accepted[p.msg])| && f == Segment(accepted[p.msg])[p.frame]
  }

  /** Of the frames before q on the channel, p is the last one that was not lost; a first frame never is. */
  ghost predicate Follows(p: Pos, q: Pos) {
    if q.frame > 0 then p.msg == q.msg && p.frame < q.frame else p.msg < q.msg
  }

  ghost function Pred(last: Pos, at: seq<Pos>, i: nat): Pos
    requires i < |at|
  {
    if i == 0 then last else at[i - 1]
  }

  ghost predicate Chain(last: Pos, at: seq<Pos>) {
    forall i :: 0 <= i < |at| ==> Follows(Pred(last, at, i), at[i])
  }

  ghost function Tail(last: Pos, at: seq<Pos>): Pos { if at == [] then last else at[|at| - 1] }

  /** A position inside a message has a frame to send. */
  ghost predicate Due(cut: Pos, accepted: seq<seq<u8>>, from: nat) {
    cut.frame >= 0 &&
    (cut.frame > 0 ==>
      from <= cut.msg < |accepted| && IsMessage(accepted[cut.msg]) && cut.frame < |Segment(accepted[cut.msg])|)
  }

  /** Every frame on the channel stands where `at` says, before the cut. */
  ghost predicate Placed(q: seq<Frame>, at: seq<Pos>, cut: Pos, accepted: seq<seq<u8>>, from: nat) {
    |at| == |q| && forall i :: 0 <= i < |at| ==> Stands(q[i], at[i], accepted, from) && Before(at[i], cut)
  }

  /** If the sender is inside a message, its first frame has not been lost. */
  ghost predicate Ends(last: Pos, at: seq<Pos>, cut: Pos) {
    Before(last, cut) && last.frame >= 0 && (cut.frame > 0 ==> Tail(last, at).msg == cut.msg)
  }

  ghost predicate Queued(q: seq<Frame>, at: seq<Pos>, last: Pos, cut: Pos, accepted: seq<seq<u8>>, from: nat) {
    Placed(q, at, cut, accepted, from) && Chain(last, at) && Ends(last, at, cut) && Due(cut, accepted, from)
  }

  /** What the sender can do to the channel: nothing, or append the frame that is due. */
  ghost predicate Advances(q: seq<Frame>, cut: Pos, q': seq<Frame>, cut': Pos, accepted': seq<seq<u8>>, from: nat) {
    Due(cut', accepted', from) &&
    if q' == q then cut' == cut || cut' == Pos(cut.msg + 1, 0)
    else
      && |q'| == |q| + 1 && q'[..|q|] == q && Stands(q'[|q|], cut, accepted', from)
      && (cut' == Pos(cut.msg, cut.frame + 1) || cut' == Pos(cut.msg + 1, 0))
  }

  lemma SendAdvances(s: S.Session, c: S.Setup, act: TxAct, from: nat)
    requires Current(s, from) && s.rx.Valid() && !act.Fc? && Due(Cut(s), s.accepted, from)
    ensures var r := S.Step(s, c, S.Send(act));
      && Current(r, from) && s.accepted <= r.accepted && r.rx == s.rx && r.inds == s.inds
      && Advances(s.dataQ, Cut(s), r.dataQ, Cut(r), r.accepted, from)
  {
    hide TxStep, Segment;
    var o := TxStep(s.tx, c.nBs, act);
    if s.tx.Busy() || IsoTpSender.Starts(s.tx, act) {
      IsoTpSender.BusyStep(s.tx, c.nBs, act);
      if IsoTpSender.Starts(s.tx, act) { StartsIdle(s.tx, act); }
      if o.sent == [] { assert s.dataQ + [] == s.dataQ; }
    } else {
      IsoTpSender.IdleStep(s.tx, c.nBs, act);
      assert s.dataQ + [] == s.dataQ;
    }
  }

  lemma StartsIdle(tx: Tx, act: TxAct)
    requires IsoTpSender.Starts(tx, act)
    ensures !tx.Busy()
  {}

  lemma FcAdvances(s: S.Session, c: S.Setup, now: u32, from: nat)
    requires Current(s, from) && s.rx.Valid() && Due(Cut(s), s.accepted, from)
    ensures var r := S.Step(s, c, S.DeliverFc(now));
      && Current(r, from) && s.accepted == r.accepted && r.rx == s.rx && r.inds == s.inds && r.dataQ == s.dataQ
      && Advances(s.dataQ, Cut(s), r.dataQ, Cut(r), r.accepted, from)
  {
    hide TxStep, Segment;
    if s.fcQ != [] {
      var act := Fc(s.fcQ[0], CAN_DL, now);
      FcSilent(s.tx, c.nBs, act);
      if s.tx.Busy() { IsoTpSender.BusyStep(s.tx, c.nBs, act); } else { IsoTpSender.IdleStep(s.tx, c.nBs, act); }
    }
  }

  lemma ChainGrows(last: Pos, at: seq<Pos>, p: Pos)
    requires Chain(last, at) && Follows(Tail(last, at), p)
    ensures Chain(last, at + [p])
  {
    var at' := at + [p];
    forall i | 0 <= i < |at'| ensures Follows(Pred(last, at', i), at'[i]) {
      if i < |at| { assert at'[i] == at[i] && Pred(last, at', i) == Pred(last, at, i); }
    }
  }

  lemma PlacedGrows(q: seq<Frame>, at: seq<Pos>, cut: Pos, acc: seq<seq<u8>>, from: nat, q': seq<Frame>, cut': Pos,
      acc': seq<seq<u8>>)
    requires Placed(q, at, cut, acc, from) && acc <= acc' && Advances(q, cut, q', cut', acc', from)
    ensures Placed(q', if q' == q then at else at + [cut], cut', acc', from)
  {
    hide Segment, Due;
    if q' != q {
      var at' := at + [cut];
      forall i | 0 <= i < |at'| ensures Stands(q'[i], at'[i], acc', from) && Before(at'[i], cut') {
        if i < |at| { assert q'[..|q|][i] == q'[i]; }
      }
    }
  }

  /** Appending the frame that is due keeps the channel in order. */
  lemma QueueAdvances(q: seq<Frame>, at: seq<Pos>, last: Pos, cut: Pos, acc: seq<seq<u8>>, from: nat,
                      q': seq<Frame>, cut': Pos, acc': seq<seq<u8>>)
    requires Queued(q, at, last, cut, acc, from) && acc <= acc' && Advances(q, cut, q', cut', acc', from)
    ensures Queued(q', if q' == q then at else at + [cut], last, cut', acc', from)
  {
    PlacedGrows(q, at, cut, acc, from, q', cut', acc');
    TailPlaced(q, at, last, cut, acc, from);
    hide Placed, Stands, Chain;
    if q' != q { ChainGrows(last, at, cut); }
  }

  /** The frame that is due follows the last one on the channel. */
  lemma TailPlaced(q: seq<Frame>, at: seq<Pos>, last: Pos, cut: Pos, acc: seq<seq<u8>>, from: nat)
    requires Placed(q, at, cut, acc, from) && Ends(last, at, cut) && Due(cut, acc, from)
    ensures Follows(Tail(last, at), cut)
  {
    hide Segment;
  }

  /** What is no first frame is a consecutive frame, or a whole message. */
  lemma NoFirstFrame(f: Frame, p: Pos, acc: seq<seq<u8>>, from: nat)
    requires Stands(f, p, acc, from) && Pci(f) != 1
    ensures p.frame > 0 || |Segment(acc[p.msg])| == 1
  {
    FirstKind(acc[p.msg]);
  }

  lemma FirstKind(m: seq<u8>)
    requires IsMessage(m)
    ensures Pci(Segment(m)[0]) != 1 ==> |Segment(m)| == 1
  {
    if |m| > SF_MAX_DATA { LengthNibble(|m|); }
  }

  lemma LengthNibble(n: int)
    requires 0 <= n <= MAX_MESSAGE_LEN
    ensures (0x10 + n / 256) / 16 == 1
  {}

  lemma ChainLoses(last: Pos, at: seq<Pos>, i: nat)
    requires Chain(last, at) && i < |at|
    requires i + 1 < |at| && at[i + 1].frame > 0 ==> at[i].frame > 0
    ensures Chain(last, at[..i] + at[i + 1..])
  {
    var r := at[..i] + at[i + 1..];
    forall k | 0 <= k < |r| ensures Follows(Pred(last, r, k), r[k]) {
      if k < i {
        assert r[k] == at[k] && Pred(last, r, k) == Pred(last, at, k);
      } else {
        assert r[k] == at[k + 1] && Follows(Pred(last, at, k + 1), at[k + 1]);
        if k == i {
          assert Follows(Pred(last, at, i), at[i]) && Pred(last, r, k) == Pred(last, at, i);
        } else {
          assert Pred(last, r, k) == Pred(last, at, k + 1);
        }
      }
    }
  }

  lemma PlacedLoses(q: seq<Frame>, at: seq<Pos>, cut: Pos, acc: seq<seq<u8>>, from: nat, i: nat)
    requires Placed(q, at, cut, acc, from) && i < |q|
    ensures Placed(Remove(q, i), Remove(at, i), cut, acc, from)
  {
    hide Stands;
    var q', at' := Remove(q, i), Remove(at, i);
    forall k | 0 <= k < |at'| ensures Stands(q'[k], at'[k], acc, from) && Before(at'[k], cut) {
      var j := if k < i then k else k + 1;
      assert q'[k] == q[j] && at'[k] == at[j];
    }
  }

  lemma EndsLoses(q: seq<Frame>, at: seq<Pos>, last: Pos, cut: Pos, acc: seq<seq<u8>>, from: nat, i: nat)
    requires Queued(q, at, last, cut, acc, from) && i < |q| && (at[i].frame > 0 || |Segment(acc[at[i].msg])| == 1)
    ensures Ends(last, Remove(at, i), cut)
  {
    assert Follows(Pred(last, at, i), at[i]);
    TailLoses(last, at, i);
    hide Segment, Chain, Stands, Placed, Pred, Remove;
  }

  lemma TailLoses(last: Pos, at: seq<Pos>, i: nat)
    requires i < |at|
    ensures Tail(last, Remove(at, i)) == if i == |at| - 1 then Pred(last, at, i) else Tail(last, at)
    ensures i == |at| - 1 ==> Tail(last, at) == at[i]
  {}

  /** Losing a frame that is not a first frame keeps the channel in order. */
  lemma QueueLoses(q: seq<Frame>, at: seq<Pos>, last: Pos, cut: Pos, acc: seq<seq<u8>>, from: nat, i: nat)
    requires Queued(q, at, last, cut, acc, from) && i < |q| && Pci(q[i]) != 1
    ensures Queued(Remove(q, i), Remove(at, i), last, cut, acc, from)
  {
    NoFirstFrame(q[i], at[i], acc, from);
    PlacedLoses(q, at, cut, acc, from, i);
    EndsLoses(q, at, last, cut, acc, from, i);
    SuccessorFrame(q, at, last, cut, acc, from, i);
    ChainLoses(last, at, i);
    hide Placed, Ends, Due, Chain, Segment;
  }

  lemma SuccessorFrame(q: seq<Frame>, at: seq<Pos>, last: Pos, cut: Pos, acc: seq<seq<u8>>, from: nat, i: nat)
    requires Queued(q, at, last, cut, acc, from) && i < |q| && (at[i].frame > 0 || |Segment(acc[at[i].msg])| == 1)
    ensures i + 1 < |at| && at[i + 1].frame > 0 ==> at[i].frame > 0
  {
    hide Segment;
    if i + 1 < |at| {
      assert Stands(q[i + 1], at[i + 1], acc, from) && Follows(Pred(last, at, i + 1), at[i + 1]);
    }
  }

  // ---------------------------------------------------------------------------------------------
  // The receiver
  // ---------------------------------------------------------------------------------------------

  /** The messages indicated as complete. */
  ghost function OkData(inds: seq<Ind>): seq<seq<u8>> {
    if inds == [] then []
    else OkData(inds[..|inds| - 1]) + (if inds[|inds| - 1].result == Ok then [inds[|inds| - 1].data] else [])
  }

  /** The i-th of them is the accepted message number oks[i], and these numbers grow. */
  ghost predicate Matches(done: seq<seq<u8>>, accepted: seq<seq<u8>>, oks: seq<int>, from: nat) {
    && |done| == |oks|
    && (forall i :: 0 <= i < |oks| ==> from <= oks[i] < |accepted| && done[i] == accepted[oks[i]])
    && (forall i, j :: 0 <= i < j < |oks| ==> oks[i] < oks[j])
  }

  /** The message indicated last was delivered to its end, and no later frame of it remains. */
  ghost predicate Closed(oks: seq<int>, last: Pos, accepted: seq<seq<u8>>) {
    oks != [] ==>
      var k := oks[|oks| - 1];
      k < last.msg || (0 <= k == last.msg < |accepted| && IsMessage(accepted[k])
          && last.frame == |Segment(accepted[k])| - 1)
  }

  /** The open reception belongs to the message of the frame delivered last. */
  ghost predicate Received(a: Asm, accepted: seq<seq<u8>>, last: Pos, from: nat) {
    if last.msg < from then !a.receiving
    else last.msg < |accepted| && IsMessage(accepted[last.msg]) && Behind(a, accepted[last.msg], last.frame)
  }

  lemma OkDataAppend(inds: seq<Ind>, x: Ind)
    ensures OkData(inds + [x]) == OkData(inds) + (if x.result == Ok then [x.data] else [])
  {
    assert (inds + [x])[..|inds|] == inds;
  }

  /** Only the last of several indications can be an Ok. */
  ghost predicate OkAtEnd(inds: seq<Ind>) {
    forall i :: 0 <= i < |inds| && inds[i].result == Ok ==> i == |inds| - 1
  }

  lemma {:induction false} OkDataJoin(inds: seq<Ind>, more: seq<Ind>)
    requires OkAtEnd(more)
    ensures OkData(inds + more)
         == OkData(inds) + (if more != [] && more[|more| - 1].result == Ok then [more[|more| - 1].data] else [])
    decreases |more|
  {
    if more == [] { assert inds + more == inds; }
    else {
      var n := |more| - 1;
      OkDataJoin(inds, more[..n]);
      assert inds + more == (inds + more[..n]) + [more[n]];
      OkDataAppend(inds + more[..n], more[n]);
    }
  }

  /** The frame at position q arrives, the next one that was not lost. */
  lemma FrameArrives(a: Asm, bs: u8, acc: seq<seq<u8>>, last: Pos, q: Pos, f: Frame, oks: seq<int>, from: nat)
    requires a.Valid() && Received(a, acc, last, from) && Follows(last, q) && Stands(f, q, acc, from)
    requires last.frame >= 0 && Closed(oks, last, acc)
    ensures var o := AsmStep(a, bs, f, CAN_DL); var ok := o.inds != [] && o.inds[|o.inds| - 1].result == Ok;
      && Received(o.asm, acc, q, from) && OkAtEnd(o.inds)
      && (ok ==> o.inds[|o.inds| - 1].data == acc[q.msg])
      && (oks != [] ==> oks[|oks| - 1] < q.msg)
      && Closed(if ok then oks + [q.msg] else oks, q, acc)
  {
    hide AsmStep, Segment, Behind;
    var m := acc[q.msg];
    if q.frame == 0 {
      FirstDelivered(a, bs, m);
      IsoTpSender.SegmentLength(m);
    } else {
      CfDelivered(a, bs, m, last.frame, q.frame);
    }
  }

  // ---------------------------------------------------------------------------------------------
  // Runs
  // ---------------------------------------------------------------------------------------------

  /**
   * A conversation and where it stands: counted from the accepted message number `from` and the indication number
   * `base`; `at`: the frames on the channel, `last`: the frame delivered last, `oks`: the messages indicated.
   */
  datatype Talk = Talk(s: S.Session, from: nat, base: nat, at: seq<Pos>, last: Pos, oks: seq<int>)

  ghost predicate Inv(t: Talk) {
    && Current(t.s, t.from) && t.s.rx.Valid()
    && Queued(t.s.dataQ, t.at, t.last, Cut(t.s), t.s.accepted, t.from)
    && Received(t.s.rx.asm, t.s.accepted, t.last, t.from)
    && t.base <= |t.s.inds|
    && Matches(OkData(t.s.inds[t.base..]), t.s.accepted, t.oks, t.from)
    && Closed(t.oks, t.last, t.s.accepted)
  }

  /** No first frame is lost. */
  ghost predicate Spares(s: S.Session, act: Act) {
    act.DropData? && act.i < |s.dataQ| ==> Pci(s.dataQ[act.i]) != 1
  }

  lemma MatchesMore(done: seq<seq<u8>>, acc: seq<seq<u8>>, acc': seq<seq<u8>>, oks: seq<int>, last: Pos, from: nat)
    requires Matches(done, acc, oks, from) && Closed(oks, last, acc) && acc <= acc'
    ensures Matches(done, acc', oks, from) && Closed(oks, last, acc')
  {
    hide Segment;
  }

  lemma SendStep(t: Talk, c: S.Setup, act: TxAct) returns (t': Talk)
    requires Inv(t) && !act.Fc?
    ensures Inv(t') && t'.s == S.Step(t.s, c, S.Send(act)) && t'.from == t.from && t'.base == t.base
  {
    hide Segment, TxStep, Queued, Behind, Matches, Closed, Advances;
    QueuedDue(t);
    SendAdvances(t.s, c, act, t.from);
    var s := S.Step(t.s, c, S.Send(act));
    QueueAdvances(t.s.dataQ, t.at, t.last, Cut(t.s), t.s.accepted, t.from, s.dataQ, Cut(s), s.accepted);
    MatchesMore(OkData(t.s.inds[t.base..]), t.s.accepted, s.accepted, t.oks, t.last, t.from);
    t' := t.(s := s, at := if s.dataQ == t.s.dataQ then t.at else t.at + [Cut(t.s)]);
  }

  lemma QueuedDue(t: Talk)
    requires Inv(t)
    ensures Due(Cut(t.s), t.s.accepted, t.from)
  {}

  lemma FcStep(t: Talk, c: S.Setup, now: u32) returns (t': Talk)
    requires Inv(t)
    ensures Inv(t') && t'.s == S.Step(t.s, c, S.DeliverFc(now)) && t'.from == t.from && t'.base == t.base
  {
    hide Segment, TxStep, Queued, Behind, Matches, Closed, Advances;
    QueuedDue(t);
    FcAdvances(t.s, c, now, t.from);
    var s := S.Step(t.s, c, S.DeliverFc(now));
    QueueAdvances(t.s.dataQ, t.at, t.last, Cut(t.s), t.s.accepted, t.from, s.dataQ, Cut(s), s.accepted);
    t' := t.(s := s);
  }

  /** The head of the channel is gone; the rest follows it. */
  lemma QueueDelivers(q: seq<Frame>, at: seq<Pos>, last: Pos, cut: Pos, acc: seq<seq<u8>>, from: nat)
    requires Queued(q, at, last, cut, acc, from) && q != []
    ensures at != [] && Follows(last, at[0]) && Stands(q[0], at[0], acc, from) && last.frame >= 0
    ensures Queued(q[1..], at[1..], at[0], cut, acc, from)
  {
    hide Segment;
    assert Follows(Pred(last, at, 0), at[0]);
    ChainDelivers(last, at);
    assert Tail(at[0], at[1..]) == Tail(last, at);
  }

  lemma ChainDelivers(last: Pos, at: seq<Pos>)
    requires Chain(last, at) && at != []
    ensures Chain(at[0], at[1..])
  {
    var r := at[1..];
    forall i | 0 <= i < |r| ensures Follows(Pred(at[0], r, i), r[i]) {
      assert Follows(Pred(last, at, i + 1), at[i + 1]);
    }
  }

  /** One more indicated message, later than all before. */
  lemma MatchesNext(done: seq<seq<u8>>, acc: seq<seq<u8>>, oks: seq<int>, from: nat, k: int)
    requires Matches(done, acc, oks, from) && from <= k < |acc| && (oks != [] ==> oks[|oks| - 1] < k)
    ensures Matches(done + [acc[k]], acc, oks + [k], from)
  {}

  /** What a delivery leaves alone, and what it does to the receiver. */
  lemma Delivered(s: S.Session, c: S.Setup, now: u32, accept: bool)
    requires s.tx.Valid() && s.rx.Valid() && s.dataQ != []
    ensures var r := S.Step(s, c, S.DeliverData(now, accept));
        var o := AsmStep(s.rx.asm, c.rcfg.blockSize, s.dataQ[0], CAN_DL);
      && r.tx == s.tx && r.accepted == s.accepted && r.dataQ == s.dataQ[1..]
      && r.rx.asm == o.asm && r.inds == s.inds + o.inds
  {
    hide AsmStep;
    IsoTpReceiver.DataOut(s.rx, c.rcfg, s.dataQ[0], CAN_DL, now, accept);
  }

  /** The messages indicated, after the indications a frame at position q has caused. */
  lemma IndicationsGrow(inds: seq<Ind>, base: nat, more: seq<Ind>, acc: seq<seq<u8>>, oks: seq<int>, from: nat, k: int)
    requires base <= |inds| && OkAtEnd(more) && Matches(OkData(inds[base..]), acc, oks, from)
    requires from <= k < |acc| && (oks != [] ==> oks[|oks| - 1] < k)
    requires more != [] && more[|more| - 1].result == Ok ==> more[|more| - 1].data == acc[k]
    ensures var ok := more != [] && more[|more| - 1].result == Ok;
      Matches(OkData((inds + more)[base..]), acc, if ok then oks + [k] else oks, from)
  {
    hide Matches, OkData;
    NewInds(inds, more, base);
    OkDataJoin(inds[base..], more);
    if more != [] && more[|more| - 1].result == Ok { MatchesNext(OkData(inds[base..]), acc, oks, from, k); }
    else { assert OkData(inds[base..]) + [] == OkData(inds[base..]); }
  }

  lemma DeliveryStep(t: Talk, c: S.Setup, now: u32, accept: bool) returns (t': Talk)
    requires Inv(t)
    ensures Inv(t') && t'.s == S.Step(t.s, c, S.DeliverData(now, accept)) && t'.from == t.from && t'.base == t.base
  {
    hide S.Step, AsmStep, Queued, Received, Matches, Closed, OkAtEnd, OkData, Follows;
    if t.s.dataQ == [] {
      NothingDelivered(t.s, c, now, accept);
      return t;
    }
    var acc, a, f := t.s.accepted, t.s.rx.asm, t.s.dataQ[0];
    var o := AsmStep(a, c.rcfg.blockSize, f, CAN_DL);
    QueueDelivers(t.s.dataQ, t.at, t.last, Cut(t.s), acc, t.from);
    Delivered(t.s, c, now, accept);
    FrameArrives(a, c.rcfg.blockSize, acc, t.last, t.at[0], f, t.oks, t.from);
    IndicationsGrow(t.s.inds, t.base, o.inds, acc, t.oks, t.from, t.at[0].msg);
    var ok := o.inds != [] && o.inds[|o.inds| - 1].result == Ok;
    t' := t.(s := S.Step(t.s, c, S.DeliverData(now, accept)), at := t.at[1..], last := t.at[0],
             oks := if ok then t.oks + [t.at[0].msg] else t.oks);
  }

  lemma NothingDelivered(s: S.Session, c: S.Setup, now: u32, accept: bool)
    requires s.tx.Valid() && s.rx.Valid() && s.dataQ == []
    ensures S.Step(s, c, S.DeliverData(now, accept)) == s
  {}

  /** A poll of the receiver can only close a reception, with an error. */
  lemma PollCloses(rx: Rx, cfg: Cfg, act: RxAct)
    requires rx.Valid() && !act.Data?
    ensures var o := RxStep(rx, cfg, act);
      && (o.rx.asm == rx.asm || o.rx.asm == rx.asm.(receiving := false))
      && (forall i :: 0 <= i < |o.inds| ==> o.inds[i].result != Ok)
  {}

  lemma {:induction false} NoOkData(inds: seq<Ind>, more: seq<Ind>)
    requires forall i :: 0 <= i < |more| ==> more[i].result != Ok
    ensures OkData(inds + more) == OkData(inds)
  {
    OkDataJoin(inds, more);
    assert OkData(inds) + [] == OkData(inds);
  }

  lemma ReceivedCloses(a: Asm, acc: seq<seq<u8>>, last: Pos, from: nat)
    requires Received(a, acc, last, from)
    ensures Received(a.(receiving := false), acc, last, from)
  {}

  lemma Polled(s: S.Session, c: S.Setup, act: RxAct)
    requires s.tx.Valid() && s.rx.Valid() && !act.Data?
    ensures var r := S.Step(s, c, S.Poll(act)); var o := RxStep(s.rx, c.rcfg, act);
      && r.tx == s.tx && r.accepted == s.accepted && r.dataQ == s.dataQ && r.rx == o.rx && r.inds == s.inds + o.inds
  {
    hide RxStep;
  }

  lemma PollStep(t: Talk, c: S.Setup, act: RxAct) returns (t': Talk)
    requires Inv(t) && !act.Data?
    ensures Inv(t') && t'.s == S.Step(t.s, c, S.Poll(act)) && t'.from == t.from && t'.base == t.base
  {
    hide S.Step, RxStep, Queued, Matches, Closed, Received, OkData;
    var o := RxStep(t.s.rx, c.rcfg, act);
    Polled(t.s, c, act);
    PollCloses(t.s.rx, c.rcfg, act);
    ReceivedCloses(t.s.rx.asm, t.s.accepted, t.last, t.from);
    NewInds(t.s.inds, o.inds, t.base);
    NoOkData(t.s.inds[t.base..], o.inds);
    t' := t.(s := S.Step(t.s, c, S.Poll(act)));
  }

  lemma DropStep(t: Talk, c: S.Setup, i: nat) returns (t': Talk)
    requires Inv(t) && Spares(t.s, DropData(i))
    ensures Inv(t') && t'.s == Happen(t.s, c, DropData(i)) && t'.from == t.from && t'.base == t.base
  {
    hide Segment, Behind, Matches, Closed, Queued;
    var s := Happen(t.s, c, DropData(i));
    if i < |t.s.dataQ| { QueueLoses(t.s.dataQ, t.at, t.last, Cut(t.s), t.s.accepted, t.from, i); }
    SameLength(t);
    t' := t.(s := s, at := Remove(t.at, i));
  }

  lemma DropFcStep(t: Talk, c: S.Setup, i: nat) returns (t': Talk)
    requires Inv(t)
    ensures Inv(t') && t'.s == Happen(t.s, c, DropFc(i)) && t'.from == t.from && t'.base == t.base
  {
    hide Segment, Behind, Matches, Closed, Queued;
    t' := t.(s := Happen(t.s, c, DropFc(i)));
  }

  lemma SameLength(t: Talk)
    requires Inv(t)
    ensures |t.at| == |t.s.dataQ|
  {}

  lemma StepInv(t: Talk, c: S.Setup, act: Act) returns (t': Talk)
    requires Inv(t) && Spares(t.s, act)
    ensures Inv(t') && t'.s == Happen(t.s, c, act) && t'.from == t.from && t'.base == t.base
  {
    hide Queued, Received, Matches, Closed, Current;
    match act
    case Step(a) =>
      if a.Send? { if a.tact.Fc? { t' := t; } else { t' := SendStep(t, c, a.tact); } }
      else if a.Poll? { if a.ract.Data? { t' := t; } else { t' := PollStep(t, c, a.ract); } }
      else if a.DeliverData? { t' := DeliveryStep(t, c, a.now, a.accept); }
      else { t' := FcStep(t, c, a.now); }
    case DropData(i) => t' := DropStep(t, c, i);
    case DropFc(i) => t' := DropFcStep(t, c, i);
  }

  ghost predicate SparesAll(s: S.Session, c: S.Setup, acts: seq<Act>)
    requires s.tx.Valid() && s.rx.Valid()
    decreases |acts|
  {
    acts == [] ||
    (var n := |acts| - 1; SparesAll(s, c, acts[..n]) && Spares(Conversation(s, c, acts[..n]), acts[n]))
  }

  lemma {:induction false} RunInv(t: Talk, c: S.Setup, acts: seq<Act>) returns (t': Talk)
    requires Inv(t) && SparesAll(t.s, c, acts)
    ensures Inv(t') && t'.s == Conversation(t.s, c, acts) && t'.from == t.from && t'.base == t.base
    decreases |acts|
  {
    hide Inv, Happen, Spares;
    if acts == [] { t' := t; }
    else {
      var before := RunInv(t, c, acts[..|acts| - 1]);
      t' := StepInv(before, c, acts[|acts| - 1]);
    }
  }

  /** The moment at which the count starts: nothing under way, whatever was sent and indicated before. */
  ghost predicate AtRest(s: S.Session) {
    s.tx.Valid() && s.rx.Valid() && !s.tx.Busy() && !s.rx.asm.receiving && s.dataQ == []
  }

  lemma RestInv(s: S.Session)
    requires AtRest(s)
    ensures Inv(Talk(s, |s.accepted|, |s.inds|, [], Pos(|s.accepted| - 1, 0), []))
  {
    assert s.inds[|s.inds|..] == [];
  }

  /**
   * Any messages, any timeouts on both sides, any losses of single, consecutive and flow control frames, any driver
   * refusals: if no first frame is lost, the Ok indications since a moment of rest are accepted messages of that time,
   * in order and each at most once. `oks` says which.
   */
  lemma IndicationsAreMessages(s: S.Session, c: S.Setup, acts: seq<Act>) returns (oks: seq<int>)
    requires AtRest(s) && SparesAll(s, c, acts)
    ensures var r := Conversation(s, c, acts);
      |s.inds| <= |r.inds| && Matches(OkData(r.inds[|s.inds|..]), r.accepted, oks, |s.accepted|)
  {
    RestInv(s);
    var t := RunInv(Talk(s, |s.accepted|, |s.inds|, [], Pos(|s.accepted| - 1, 0), []), c, acts);
    oks := t.oks;
    hide Conversation, Queued, Received, Closed, Current, Matches;
  }
}
