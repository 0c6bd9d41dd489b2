/**
 * What the sender puts on the bus, whatever its peer, its driver and its clock do.
 *
 * `Monitor` watches a run of the sender half: the messages accepted so far, the frames sent for each,
 * and the confirmations. Nothing is assumed about the flow control frames, which may be any bytes at any
 * time, so the theorems hold against every peer.
 */
module IsoTpSender {
  import opened Words
  import opened IsoTpModel

  // ---------------------------------------------------------------------------------------------
  // One step against the bus format
  // ---------------------------------------------------------------------------------------------

  /** `Pad` fixes length, content and padding of an emitted frame. */
  lemma PadShape(s: seq<u8>)
    requires |s| <= CAN_DL
    ensures |Pad(s)| == CAN_DL && Pad(s)[..|s|] == s
    ensures forall i :: |s| <= i < CAN_DL ==> Pad(s)[i] == 0xCC
  {}

  lemma SegmentLength(m: seq<u8>)
    requires IsMessage(m)
    ensures |Segment(m)| == if |m| <= SF_MAX_DATA then 1 else 1 + CfCount(|m|)
    ensures |m| > SF_MAX_DATA ==>
      FF_DATA + CF_MAX_DATA * (CfCount(|m|) - 1) < |m| <= FF_DATA + CF_MAX_DATA * CfCount(|m|)
  {}

  /** The messages before `act`, with a message that `act` starts. */
  ghost predicate Starts(tx: Tx, act: TxAct) {
    act.Transmit? && TransmitResult(tx, act.msg) == Ok
  }

  ghost function NextMessage(tx: Tx, act: TxAct): seq<u8>
    requires tx.Valid() && (tx.Busy() || Starts(tx, act))
  {
    if Starts(tx, act) then act.msg else tx.Message()
  }

  ghost function NextEmitted(tx: Tx, act: TxAct): nat
    requires tx.Valid() && (tx.Busy() || Starts(tx, act))
  {
    if Starts(tx, act) then 0 else tx.Emitted()
  }

  /** An idle sender to which nothing is given stays silent and unchanged. */
  lemma IdleStep(tx: Tx, nBs: u16, act: TxAct)
    requires tx.Valid() && !tx.Busy() && !Starts(tx, act)
    ensures TxStep(tx, nBs, act) == TxOut(tx, [], [])
  {}

  /**
   * One step of a busy sender: at most one frame leaves, it is the next frame of the message, the
   * message in the buffer is the same afterwards, and the sender confirms exactly when it goes idle,
   * with Ok exactly when the last frame of the message went out.
   */
  lemma BusyStep(tx: Tx, nBs: u16, act: TxAct)
    requires tx.Valid() && (tx.Busy() || Starts(tx, act))
    ensures var o := TxStep(tx, nBs, act); var m := NextMessage(tx, act); var k := NextEmitted(tx, act);
      && IsMessage(m)
      && k < |Segment(m)|
      && (o.sent == [] || o.sent == [Segment(m)[k]])
      && (o.tx.Busy() ==> o.confs == [] && o.tx.Message() == m && o.tx.Emitted() == k + |o.sent| < |Segment(m)|)
      && (!o.tx.Busy() ==> |o.confs| == 1 && (o.confs[0] == Ok <==> k + |o.sent| == |Segment(m)|))
  {
    hide Segment, TxFirst, TxCf, Loaded;
    SegmentLength(NextMessage(tx, act));
    match act
    case Transmit(msg, now, accept, after) => if Starts(tx, act) { TransmitStep(tx, msg, now, accept, after); }
    case FirstRetry(accept, after, now) => if tx.state == SendFirst { FirstStep(tx, accept, after); }
    case BsCheck(now) =>
    case Fc(data, dlc, now) =>
    case Cf(check, accept, record, block) => if tx.state == SendCf { CfStep(tx, check, accept, record, block); }
  }

  lemma TransmitStep(tx: Tx, msg: seq<u8>, now: u32, accept: bool, after: u32)
    requires tx.Valid() && TransmitResult(tx, msg) == Ok
    ensures TxStep(tx, 0, Transmit(msg, now, accept, after)) == TxFirst(Loaded(tx, msg, now), accept, after)
    ensures IsMessage(msg)
    ensures var o := TxFirst(Loaded(tx, msg, now), accept, after);
      && (!accept ==> o == TxOut(Loaded(tx, msg, now), [], []))
      && (accept ==> o.sent == [Segment(msg)[0]])
      && (accept && |Segment(msg)| == 1 ==> o.confs == [Ok] && !o.tx.Busy())
      && (accept && |Segment(msg)| > 1 ==>
           o.confs == [] && o.tx.state == WaitFc && o.tx.Message() == msg && o.tx.Emitted() == 1)
  {
    FirstStep(Loaded(tx, msg, now), accept, after);
  }

  lemma FirstStep(tx: Tx, accept: bool, after: u32)
    requires tx.Valid() && tx.state == SendFirst
    ensures var o := TxFirst(tx, accept, after); var m := tx.Message();
      && (!accept ==> o == TxOut(tx, [], []))
      && (accept ==> o.sent == [Segment(m)[0]])
      && (accept && |Segment(m)| == 1 ==> o.confs == [Ok] && !o.tx.Busy())
      && (accept && |Segment(m)| > 1 ==>
           o.confs == [] && o.tx.Valid() && o.tx.state == WaitFc && o.tx.Message() == m && o.tx.Emitted() == 1)
  {
    var m := tx.Message();
    SegmentLength(m);
    assert m[..] == m;
    if tx.length > SF_MAX_DATA { assert tx.buf[..FF_DATA] == m[..FF_DATA]; }
  }

  lemma SliceOfPrefix(b: seq<u8>, n: nat, i: nat, j: nat)
    requires i <= j <= n <= |b|
    ensures b[..n][i..j] == b[i..j]
  {}

  /** The frame the loop builds is the frame of the message that is due. */
  lemma CfBytes(tx: Tx)
    requires tx.Valid() && tx.state == SendCf
    ensures var m := tx.Message(); var k := tx.Emitted();
      && 1 <= k < |Segment(m)|
      && Pad([0x20 + tx.sn] + tx.buf[tx.offset..tx.offset + Chunk(tx)]) == Segment(m)[k]
  {
    var m := tx.Message();
    var k := tx.Emitted();
    SegmentLength(m);
    assert tx.offset == FF_DATA + CF_MAX_DATA * (k - 1);
    assert tx.offset + Chunk(tx) == Min(FF_DATA + CF_MAX_DATA * k, |m|);
    assert CfPayload(m, k - 1) == m[tx.offset..tx.offset + Chunk(tx)];
    SliceOfPrefix(tx.buf, tx.length, tx.offset, tx.offset + Chunk(tx));
  }

  lemma CfPosition(tx: Tx, check: u32, record: u32, block: u32)
    requires tx.Valid() && tx.state == SendCf && !CfBlocked(tx, check, true)
    ensures var t := TxCf(tx, check, true, record, block).tx; var m := tx.Message(); var k := tx.Emitted();
      && (t.Busy() <==> k + 1 < |Segment(m)|)
      && (t.Busy() ==> t.Streaming() && t.Message() == m && t.Emitted() == k + 1)
  {
    SegmentLength(tx.Message());
  }

  lemma CfStep(tx: Tx, check: u32, accept: bool, record: u32, block: u32)
    requires tx.Valid() && tx.state == SendCf
    ensures var o := TxCf(tx, check, accept, record, block); var m := tx.Message(); var k := tx.Emitted();
      && 1 <= k < |Segment(m)|
      && (CfBlocked(tx, check, accept) ==> o == TxOut(tx, [], []))
      && (!CfBlocked(tx, check, accept) ==>
            && o.sent == [Segment(m)[k]]
            && (k + 1 == |Segment(m)| ==> o.confs == [Ok] && !o.tx.Busy())
            && (k + 1 < |Segment(m)| ==>
                 o.confs == [] && o.tx.Streaming() && o.tx.Message() == m && o.tx.Emitted() == k + 1))
  {
    hide Segment, Pad, Advance, AfterCf;
    CfBytes(tx);
    if !CfBlocked(tx, check, accept) { CfPosition(tx, check, record, block); }
  }

  // ---------------------------------------------------------------------------------------------
  // Whole runs
  // ---------------------------------------------------------------------------------------------

  /** A confirmed message: the frames sent for it, and the result given to the application. */
  datatype Transfer = Transfer(msg: seq<u8>, frames: seq<Frame>, conf: Result)

  /**
   * `accepted`: the messages Transmit took; `frames`: the frames sent for the last of them; `done`: one
   * entry a confirmation; `burst`: the consecutive frames since the last accepted continue-to-send.
   */
  datatype Monitor = Monitor(
    tx: Tx, accepted: seq<seq<u8>>, frames: seq<Frame>, done: seq<Transfer>, burst: nat)

  ghost function Record(w: Monitor, accepted: seq<seq<u8>>, before: seq<Frame>, o: TxOut, burst: nat): Monitor {
    var frames := before + o.sent;
    var msg := if accepted == [] then [] else accepted[|accepted| - 1];
    Monitor(o.tx, accepted, frames,
            w.done + seq(|o.confs|, i requires 0 <= i < |o.confs| => Transfer(msg, frames, o.confs[i])), burst)
  }

  ghost function Burst(w: Monitor, act: TxAct, o: TxOut): nat {
    if w.tx.state == WaitFc && o.tx.state == SendCf then 0
    else if act.Cf? then w.burst + |o.sent| else w.burst
  }

  ghost function Watch(w: Monitor, nBs: u16, act: TxAct): Monitor
    requires w.tx.Valid()
  {
    var o := TxStep(w.tx, nBs, act);
    if Starts(w.tx, act) then Record(w, w.accepted + [act.msg], [], o, Burst(w, act, o))
    else Record(w, w.accepted, w.frames, o, Burst(w, act, o))
  }

  ghost function Run(w: Monitor, nBs: u16, acts: seq<TxAct>): (r: Monitor)
    requires w.tx.Valid()
    ensures r.tx.Valid()
    decreases |acts|
  {
    if acts == [] then w else Watch(Run(w, nBs, acts[..|acts| - 1]), nBs, acts[|acts| - 1])
  }

  ghost function Idle(buf: Buffer): Monitor {
    Monitor(IdleTx(buf), [], [], [], 0)
  }

  /** A prefix of the message's frames went out, all of them exactly when the result is Ok. */
  ghost predicate Accounted(t: Transfer) {
    && IsMessage(t.msg)
    && t.frames <= Segment(t.msg)
    && (t.conf == Ok <==> t.frames == Segment(t.msg))
  }

  ghost predicate DoneInv(w: Monitor) {
    && |w.accepted| == |w.done| + (if w.tx.Busy() then 1 else 0)
    && forall i :: 0 <= i < |w.done| ==> w.done[i].msg == w.accepted[i] && Accounted(w.done[i])
  }

  ghost predicate CurrentInv(w: Monitor) {
    w.tx.Valid() &&
    (w.tx.Busy() ==>
       && w.accepted != []
       && w.tx.Message() == w.accepted[|w.accepted| - 1]
       && IsMessage(w.tx.Message())
       && w.tx.Emitted() < |Segment(w.tx.Message())|
       && w.frames == Segment(w.tx.Message())[..w.tx.Emitted()])
  }

  ghost predicate BurstInv(tx: Tx, burst: nat) {
    && (tx.blockSize != 0 ==> burst <= tx.blockSize)
    && (tx.state == SendCf && tx.blockSize != 0 ==> burst == tx.blockCount)
  }

  ghost predicate Inv(w: Monitor) { CurrentInv(w) && DoneInv(w) && BurstInv(w.tx, w.burst) }

  lemma BurstStep(w: Monitor, nBs: u16, act: TxAct)
    requires w.tx.Valid() && BurstInv(w.tx, w.burst)
    ensures var o := TxStep(w.tx, nBs, act); BurstInv(o.tx, Burst(w, act, o))
  {}

  /** The bookkeeping of one step, from what `BusyStep` says about it. */
  lemma RecordStep(w: Monitor, accepted: seq<seq<u8>>, before: seq<Frame>, o: TxOut, burst: nat)
    requires accepted != [] && IsMessage(accepted[|accepted| - 1]) && o.tx.Valid()
    requires |accepted| == |w.done| + 1
    requires forall i :: 0 <= i < |w.done| ==> w.done[i].msg == accepted[i] && Accounted(w.done[i])
    requires var m := accepted[|accepted| - 1];
      && |before| < |Segment(m)| && before == Segment(m)[..|before|]
      && (o.sent == [] || o.sent == [Segment(m)[|before|]])
      && (o.tx.Busy() ==> o.confs == [] && o.tx.Message() == m && o.tx.Emitted() == |before| + |o.sent| < |Segment(m)|)
      && (!o.tx.Busy() ==> |o.confs| == 1 && (o.confs[0] == Ok <==> |before| + |o.sent| == |Segment(m)|))
    ensures var w' := Record(w, accepted, before, o, burst); CurrentInv(w') && DoneInv(w')
  {
    hide Segment;
    var m := accepted[|accepted| - 1];
    var frames := before + o.sent;
    assert frames == Segment(m)[..|frames|];
    assert Segment(m)[..|Segment(m)|] == Segment(m);
  }

  lemma {:induction false} InvStep(w: Monitor, nBs: u16, act: TxAct)
    requires Inv(w)
    ensures Inv(Watch(w, nBs, act))
  {
    hide TxStep, Segment, Burst, BurstInv;
    BurstStep(w, nBs, act);
    if Starts(w.tx, act) {
      BusyStep(w.tx, nBs, act);
      var o := TxStep(w.tx, nBs, act);
      RecordStep(w, w.accepted + [act.msg], [], o, Burst(w, act, o));
    } else if w.tx.Busy() {
      BusyStep(w.tx, nBs, act);
      var o := TxStep(w.tx, nBs, act);
      RecordStep(w, w.accepted, w.frames, o, Burst(w, act, o));
    } else {
      IdleStep(w.tx, nBs, act);
    }
  }

  lemma {:induction false} RunInv(w: Monitor, nBs: u16, acts: seq<TxAct>)
    requires Inv(w)
    ensures Inv(Run(w, nBs, acts))
    decreases |acts|
  {
    if acts != [] {
      RunInv(w, nBs, acts[..|acts| - 1]);
      InvStep(Run(w, nBs, acts[..|acts| - 1]), nBs, acts[|acts| - 1]);
    }
  }

  /**
   * Against any peer: each accepted message is confirmed exactly once (or is the one in progress), the
   * frames sent for it are a prefix of its segmentation, and Ok is confirmed exactly for the messages
   * whose frames all went out.
   */
  lemma SenderFollowsMessages(buf: Buffer, nBs: u16, acts: seq<TxAct>)
    ensures var w := Run(Idle(buf), nBs, acts);
      && |w.accepted| == |w.done| + (if w.tx.Busy() then 1 else 0)
      && (forall i :: 0 <= i < |w.done| ==> w.done[i].msg == w.accepted[i] && Accounted(w.done[i]))
      && (w.tx.Busy() ==>
            var m := w.accepted[|w.accepted| - 1];
            w.tx.Message() == m && IsMessage(m) && w.frames < Segment(m))
  {
    hide Run, Segment;
    RunInv(Idle(buf), nBs, acts);
    var w := Run(Idle(buf), nBs, acts);
    if w.tx.Busy() { assert w.frames != Segment(w.tx.Message()); }
  }

  /** With a block size BS > 0, at most BS consecutive frames leave per continue-to-send. */
  lemma BlockLimit(buf: Buffer, nBs: u16, acts: seq<TxAct>)
    ensures var w := Run(Idle(buf), nBs, acts);
      w.tx.blockSize != 0 ==> w.burst <= w.tx.blockSize
  {
    RunInv(Idle(buf), nBs, acts);
  }
}
