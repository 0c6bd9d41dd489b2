/**
 * One transfer in real time: one clock for both ends, the periodic call at least every p ms, frames delivered within
 * d ms, drivers that take every frame. Under bounds on p, d and the separation time no timeout fires, and the message
 * is indicated within an explicit time.
 *
 * With nothing lost, the state of both halves is determined by two numbers: the frames sent and the frames delivered.
 */
module IsoTpDeadline {
  import opened Words
  import Arith
  import opened IsoTpModel
  import IsoTpReceiver
  import IsoTpSender
  import IsoTpTiming
  import S = IsoTpSession
  import C = IsoTpCost
  import H = IsoTpChannel
  import L = IsoTpLossy

  // ---------------------------------------------------------------------------------------------
  // Timed runs
  // ---------------------------------------------------------------------------------------------

  /** `polled`: the last call of the sender's IsoTp_MainFunction; `dataAt`, `fcAt`: when the queued frames were sent. */
  datatype Timed = Timed(s: S.Session, now: nat, polled: nat, dataAt: seq<nat>, fcAt: seq<nat>)

  datatype Event =
    /** IsoTp_MainFunction at the sender, at the receiver; IsoTp_RxFrame at the receiver, at the sender. */
    | SenderCall
    | ReceiverCall
    | DataIn
    | FcIn
    /** Time passes. */
    | Idle

  /** What the 32-bit millisecond clock reads. */
  ghost function Reads(t: nat): u32 { t % TWO32 }

  ghost function SendCfAt(t: nat): S.Act { S.Send(Cf(Reads(t), true, Reads(t), Reads(t))) }

  /** TxSendConsecutiveFrames: frames leave until STmin, the block or the message ends. */
  ghost function Burst(s: S.Session, c: S.Setup, t: nat): (r: S.Session)
    requires s.tx.Valid() && s.rx.Valid()
    ensures r.tx.Valid() && r.rx.Valid() && s.dataQ <= r.dataQ
    decreases if s.tx.Busy() then s.tx.length - s.tx.offset else 0
  {
    if s.tx.state != SendCf || StMinHolds(s.tx, Reads(t)) then s
    else
      CfMoves(s.tx, t);
      var next := S.Step(s, c, SendCfAt(t));
      Burst(next, c, t)
  }

  lemma CfMoves(tx: Tx, t: nat)
    requires tx.Valid() && tx.state == SendCf && !StMinHolds(tx, Reads(t))
    ensures var o := TxCf(tx, Reads(t), true, Reads(t), Reads(t)); o.tx.Busy() ==>
      o.tx.length - o.tx.offset < tx.length - tx.offset
  {}

  ghost function MainSender(s: S.Session, c: S.Setup, t: nat): (r: S.Session)
    requires s.tx.Valid() && s.rx.Valid()
    ensures r.tx.Valid() && r.rx.Valid()
  {
    match s.tx.state
    case TxIdle => s
    case SendFirst => S.Step(s, c, S.Send(FirstRetry(true, Reads(t), Reads(t))))
    case WaitFc => S.Step(s, c, S.Send(BsCheck(Reads(t))))
    case SendCf => Burst(s, c, t)
  }

  ghost function MainReceiver(s: S.Session, c: S.Setup, t: nat): (r: S.Session)
    requires s.tx.Valid() && s.rx.Valid()
    ensures r.tx.Valid() && r.rx.Valid()
  {
    S.Step(S.Step(s, c, S.Poll(FcRetry(true))), c, S.Poll(CrCheck(Reads(t))))
  }

  /** A flow control frame arrives; consecutive frames follow if it was an awaited continue-to-send. */
  ghost function TakeFc(s: S.Session, c: S.Setup, t: nat): (r: S.Session)
    requires s.tx.Valid() && s.rx.Valid()
    ensures r.tx.Valid() && r.rx.Valid()
  {
    var next := S.Step(s, c, S.DeliverFc(Reads(t)));
    if s.tx.state == WaitFc then Burst(next, c, t) else next
  }

  /** Send times of a queue that lost its head or grew at time t. */
  ghost function Times(at: seq<nat>, before: nat, after: nat, t: nat): seq<nat> {
    if after < before then (if at == [] then [] else at[1..]) else at + seq(after - before, _ => t)
  }

  ghost function Do(x: Timed, c: S.Setup, e: Event, t: nat): (r: Timed)
    requires x.s.tx.Valid() && x.s.rx.Valid()
    ensures r.s.tx.Valid() && r.s.rx.Valid()
  {
    var s := match e
      case SenderCall => MainSender(x.s, c, t)
      case ReceiverCall => MainReceiver(x.s, c, t)
      case DataIn => S.Step(x.s, c, S.DeliverData(Reads(t), true))
      case FcIn => TakeFc(x.s, c, t)
      case Idle => x.s;
    Timed(s, t, if e == SenderCall then t else x.polled,
          Times(x.dataAt, |x.s.dataQ|, |s.dataQ|, t), Times(x.fcAt, |x.s.fcQ|, |s.fcQ|, t))
  }

  /** What must have happened before time t has happened: the periodic call, and the delivery of what is queued. */
  ghost predicate Prompt(x: Timed, p: nat, d: nat, t: nat) {
    && x.now <= t <= x.polled + p
    && (x.dataAt != [] ==> t <= x.dataAt[0] + d) && (x.fcAt != [] ==> t <= x.fcAt[0] + d)
  }

  ghost function Run(x: Timed, c: S.Setup, es: seq<(Event, nat)>): (r: Timed)
    requires x.s.tx.Valid() && x.s.rx.Valid()
    ensures r.s.tx.Valid() && r.s.rx.Valid()
    decreases |es|
  {
    if es == [] then x else Run(Do(x, c, es[0].0, es[0].1), c, es[1..])
  }

  ghost predicate PromptRun(x: Timed, c: S.Setup, p: nat, d: nat, es: seq<(Event, nat)>)
    requires x.s.tx.Valid() && x.s.rx.Valid()
    decreases |es|
  {
    es == [] ||
    (Prompt(x, p, d, es[0].1) && PromptRun(Do(x, c, es[0].0, es[0].1), c, p, d, es[1..]))
  }

  // ---------------------------------------------------------------------------------------------
  // Blocks
  // ---------------------------------------------------------------------------------------------

  /** The consecutive frames of the current block among the first k frames. */
  ghost function Phase(bs: u8, k: nat): nat {
    if k <= 1 || bs == 0 then 0 else (Phase(bs, k - 1) + 1) % bs
  }

  /** After k frames the sender waits for a continue-to-send. */
  ghost predicate Pause(bs: u8, k: nat) { k == 1 || (k > 1 && bs > 0 && Phase(bs, k) == 0) }

  /** At the latest so long after the Transmit the k-th frame leaves. */
  ghost function SendTime(bs: u8, gap: nat, d: nat, k: nat): nat {
    if k <= 1 then 0 else SendTime(bs, gap, d, k - 1) + (if Pause(bs, k - 1) then 2 * d else gap)
  }

  lemma PhaseNext(bs: u8, k: nat)
    requires k >= 1 && bs > 0
    ensures Phase(bs, k) < bs
    ensures Phase(bs, k + 1) == if Phase(bs, k) + 1 == bs then 0 else Phase(bs, k) + 1
  {
    if Phase(bs, k) + 1 < bs { SmallMod(Phase(bs, k) + 1, bs); } else { SelfMod(bs); }
  }

  lemma SmallMod(a: nat, b: nat)
    requires a < b
    ensures a % b == a
  {}

  lemma SelfMod(b: nat)
    requires b > 0
    ensures b % b == 0
  {}

  // ---------------------------------------------------------------------------------------------
  // The state after k frames sent and i frames delivered
  // ---------------------------------------------------------------------------------------------

  /** The transfer: what is sent, when it started, what was indicated before. */
  datatype Job = Job(c: S.Setup, m: seq<u8>, p: nat, d: nat, start: nat, before: seq<Ind>)
  {
    ghost function Bs(): u8 { c.rcfg.blockSize }

    ghost function StMin(): nat { DecodeStMin(c.rcfg.stMin) }

    /** The longest time between two frames of a block. */
    ghost function Gap(): nat { if StMin() == 0 then 0 else StMin() + p }

    ghost function Frames(): nat
      requires IsMessage(m)
    {
      |Segment(m)|
    }

    /** Time enough for every timeout. */
    ghost predicate Feasible() {
      && IsMessage(m)
      && 2 * d < c.nBs && 2 * d < c.rcfg.nCr && Gap() + d < c.rcfg.nCr
    }
  }

  ghost predicate TxAt(tx: Tx, z: Job, k: nat) {
    && tx.Valid() && IsMessage(z.m) && 1 <= k <= z.Frames()
    && if k == z.Frames() then tx.state == TxIdle
       else
         && tx.Streaming() && tx.Message() == z.m && tx.Emitted() == k
         && (tx.state == WaitFc <==> Pause(z.Bs(), k))
         && (tx.state == SendCf ==>
              && tx.blockSize == z.Bs() && tx.stMin == z.StMin() && (z.Bs() > 0 ==> tx.blockCount == Phase(z.Bs(), k)))
  }

  ghost predicate RxAt(a: Asm, z: Job, i: nat) {
    && a.Valid() && IsMessage(z.m) && |z.m| <= |a.buf| && i <= z.Frames()
    && (a.receiving <==> 0 < i < z.Frames())
    && (a.receiving ==>
         && SF_MAX_DATA < |z.m| == a.length && a.offset == FF_DATA + CF_MAX_DATA * (i - 1) && a.sn == i % 16
         && a.buf[..a.offset] == z.m[..a.offset]
         && (z.Bs() > 0 ==> a.blockCount == Phase(z.Bs(), i)))
  }

  /** The sender inside a block, the receiver after i frames, and exactly the frames in between in flight. */
  ghost predicate Streams(s: S.Session, z: Job, k: nat, i: nat) {
    && s.tx.Valid() && s.rx.Valid() && !s.rx.fcPending && RxAt(s.rx.asm, z, i)
    && i <= k <= z.Frames() && (forall q :: i < q < k ==> !Pause(z.Bs(), q))
    && s.dataQ == Segment(z.m)[i..k]
    && s.inds == z.before + (if i == z.Frames() then [Ind(z.m, Ok)] else [])
  }

  ghost predicate Picture(s: S.Session, z: Job, k: nat, i: nat) {
    && Streams(s, z, k, i) && TxAt(s.tx, z, k)
    && s.fcQ == (if i == k < z.Frames() && Pause(z.Bs(), k)
                 then [FcFrame(FC_CTS, z.c.rcfg.blockSize, z.c.rcfg.stMin)] else [])
  }

  // ---------------------------------------------------------------------------------------------
  // One frame
  // ---------------------------------------------------------------------------------------------

  /** The flow control a receiver asks for after i frames. */
  ghost function Asks(z: Job, i: nat): Option<u8>
    requires IsMessage(z.m)
  {
    if i < z.Frames() && Pause(z.Bs(), i) then Some(FC_CTS) else None
  }

  lemma RxFirst(a: Asm, z: Job)
    requires RxAt(a, z, 0)
    ensures var o := AsmStep(a, z.Bs(), Segment(z.m)[0], CAN_DL);
      && RxAt(o.asm, z, 1) && o.fc == Asks(z, 1) && (o.asm.receiving ==> o.rearm)
      && o.inds == if 1 == z.Frames() then [Ind(z.m, Ok)] else []
  {
    var m := z.m;
    IsoTpSender.SegmentLength(m);
    if |m| <= SF_MAX_DATA { TakesSingle(a, z.Bs(), m); } else { TakesFirst(a, z.Bs(), m); }
    hide Segment, AsmStep;
  }

  lemma TakesSingle(a: Asm, bs: u8, m: seq<u8>)
    requires a.Valid() && !a.receiving && 1 <= |m| <= SF_MAX_DATA && |m| <= |a.buf|
    ensures var o := AsmStep(a, bs, SingleFrame(m), CAN_DL);
      !o.asm.receiving && o.fc == None && o.inds == [Ind(m, Ok)] && |o.asm.buf| == |a.buf|
  {
    var f := SingleFrame(m);
    assert f[0] % 16 == |m| && f[1..1 + |m|] == m;
  }

  lemma TakesFirst(a: Asm, bs: u8, m: seq<u8>)
    requires a.Valid() && !a.receiving && SF_MAX_DATA < |m| <= MAX_MESSAGE_LEN && |m| <= |a.buf|
    ensures var o := AsmStep(a, bs, FirstFrame(m), CAN_DL);
      && o.asm.receiving && o.rearm && o.fc == Some(FC_CTS) && o.inds == [] && |o.asm.buf| == |a.buf|
      && o.asm.length == |m| && o.asm.offset == FF_DATA && o.asm.sn == 1 && o.asm.blockCount == 0
      && o.asm.buf[..FF_DATA] == m[..FF_DATA]
  {
    assert FirstFrame(m)[2..] == m[..FF_DATA];
  }

  lemma RxNext(a: Asm, z: Job, i: nat)
    requires RxAt(a, z, i) && 0 < i < z.Frames()
    ensures var o := AsmStep(a, z.Bs(), Segment(z.m)[i], CAN_DL);
      && RxAt(o.asm, z, i + 1) && o.fc == Asks(z, i + 1) && (o.asm.receiving ==> o.rearm)
      && o.inds == if i + 1 == z.Frames() then [Ind(z.m, Ok)] else []
  {
    hide Segment, AsmStep, ConsecutiveFrame, Phase, CfCount, H.Stored;
    var m := z.m;
    L.SegmentAt(m, i);
    IsoTpSender.SegmentLength(m);
    L.CfHead(m, i - 1);
    var f := ConsecutiveFrame(m, i - 1);
    IsStored(a, i);
    L.CfContinues(a, m);
    IsoTpReceiver.StoredBytes(a, z.Bs(), f, CAN_DL);
    if z.Bs() > 0 { PhaseNext(z.Bs(), i); }
    H.StoreCount(a, z.Bs(), f, CAN_DL);
    Rearms(a, z.Bs(), f);
    NextOffset(|m|, i);
    H.NextSn(i - 1);
    assert m[..|m|] == m;
  }

  lemma IsStored(a: Asm, i: nat)
    requires i > 0 && a.offset == FF_DATA + CF_MAX_DATA * (i - 1)
    ensures H.Stored(a) == i - 1
  {}

  lemma Rearms(a: Asm, bs: u8, f: Frame)
    requires a.Valid() && IsoTpReceiver.Continues(a, f, CAN_DL)
    ensures AsmStep(a, bs, f, CAN_DL).rearm
  {}

  lemma NextOffset(n: nat, i: nat)
    requires SF_MAX_DATA < n && 0 < i <= CfCount(n)
    ensures var offset := FF_DATA + CF_MAX_DATA * (i - 1);
      offset + Min(n - offset, CF_MAX_DATA) == if i == CfCount(n) then n else offset + CF_MAX_DATA
    ensures i < CfCount(n) ==> FF_DATA + CF_MAX_DATA * i < n
  {}

  /** The sender in SEND_CF, after k frames. */
  ghost predicate TxMid(tx: Tx, z: Job, k: nat) {
    && tx.Valid() && IsMessage(z.m) && 1 <= k < z.Frames()
    && tx.state == SendCf && tx.Message() == z.m && tx.Emitted() == k
    && tx.blockSize == z.Bs() && tx.stMin == z.StMin() && (z.Bs() > 0 ==> tx.blockCount == Phase(z.Bs(), k))
  }

  lemma TxNext(tx: Tx, z: Job, k: nat, now: u32)
    requires TxMid(tx, z, k) && !StMinHolds(tx, now)
    ensures var o := TxCf(tx, now, true, now, now);
      && o.sent == [Segment(z.m)[k]] && TxAt(o.tx, z, k + 1)
      && (o.tx.state == SendCf ==> o.tx.lastCf == now) && (o.tx.state == WaitFc ==> o.tx.timerStart == now)
  {
    hide Segment, Phase, TxCf, Tx.Emitted;
    IsoTpSender.CfStep(tx, now, true, now, now);
    if z.Bs() > 0 { PhaseNext(z.Bs(), k); }
    CfFields(tx, now);
  }

  lemma CfFields(tx: Tx, now: u32)
    requires tx.Valid() && tx.state == SendCf && !StMinHolds(tx, now)
    ensures var t := TxCf(tx, now, true, now, now).tx; t.Busy() ==>
      && t.blockSize == tx.blockSize && t.stMin == tx.stMin
      && (t.state == WaitFc <==> tx.blockSize > 0 && tx.blockCount + 1 == tx.blockSize)
      && (t.state == SendCf && tx.blockSize > 0 ==> t.blockCount == tx.blockCount + 1)
      && (t.state == SendCf ==> t.lastCf == now) && (t.state == WaitFc ==> t.timerStart == now)
  {}

  /** The whole loop: one frame if there is a separation time, otherwise all up to the end of the block. */
  lemma {:induction false} BurstRuns(s: S.Session, z: Job, k: nat, i: nat, t: nat) returns (n: nat)
    requires TxMid(s.tx, z, k) && Streams(s, z, k, i) && s.fcQ == [] && !StMinHolds(s.tx, Reads(t))
    requires i == k || !Pause(z.Bs(), k)
    ensures var r := Burst(s, z.c, t);
      && Picture(r, z, n, i) && k < n && (z.StMin() > 0 ==> n == k + 1)
      && (r.tx.state == SendCf ==> r.tx.lastCf == Reads(t) && z.StMin() > 0)
      && (r.tx.state == WaitFc ==> r.tx.timerStart == Reads(t))
      && r.rx == s.rx
    decreases z.Frames() - k
  {
    hide Segment, Phase, TxCf, RxAt;
    TxNext(s.tx, z, k, Reads(t));
    var next := S.Step(s, z.c, SendCfAt(t));
    assert Segment(z.m)[i..k] + [Segment(z.m)[k]] == Segment(z.m)[i..k + 1];
    n := k + 1;
    if next.tx.state == SendCf {
      HoldsNow(next.tx, t);
      if z.StMin() == 0 { n := BurstRuns(next, z, k + 1, i, t); }
    }
  }

  lemma HoldsNow(tx: Tx, t: nat)
    requires tx.lastCf == Reads(t)
    ensures StMinHolds(tx, Reads(t)) <==> tx.stMin > 0
  {
    IsoTpTiming.ElapsedSmall(t, t);
  }

  // ---------------------------------------------------------------------------------------------
  // The times
  // ---------------------------------------------------------------------------------------------

  /** Send times in the queue: in order, at most a gap apart, the last one at w. */
  ghost predicate Spaced(at: seq<nat>, gap: nat, w: nat) {
    && (at != [] ==> at[|at| - 1] == w)
    && forall j :: 0 < j < |at| ==> at[j - 1] <= at[j] <= at[j - 1] + gap
  }

  /** w: when the last frame was sent; h: when the last one was stored. */
  ghost predicate OnTime(x: Timed, z: Job, k: nat, i: nat, w: nat, h: nat) {
    && |x.dataAt| == |x.s.dataQ| && |x.fcAt| == |x.s.fcQ|
    && w <= x.now && x.polled <= x.now && w <= z.start + SendTime(z.Bs(), z.Gap(), z.d, k)
    && Spaced(x.dataAt, z.Gap(), w)
    && (x.dataAt != [] ==> x.dataAt[0] <= w)
    && (x.s.tx.state == WaitFc ==> x.s.tx.timerStart == Reads(w))
    && (x.s.tx.state == SendCf ==> x.s.tx.lastCf == Reads(w) && 0 < z.StMin() && x.polled <= w + z.StMin())
    && (x.s.rx.asm.receiving ==>
         && x.s.rx.timerStart == Reads(h) && h <= x.now
         && (x.dataAt != [] ==> x.dataAt[0] <= h + (if Pause(z.Bs(), i) then z.d else z.Gap()))
         && (x.dataAt == [] ==> w <= h <= w + z.d)
         && (x.fcAt != [] ==> x.fcAt[0] == h))
  }

  ghost predicate Inv(x: Timed, z: Job, k: nat, i: nat, w: nat, h: nat) {
    z.Feasible() && Picture(x.s, z, k, i) && OnTime(x, z, k, i, w, h)
  }

  /** How long either half has been waiting at most, at a time by which everything due has happened. */
  lemma Waits(x: Timed, z: Job, k: nat, i: nat, w: nat, h: nat, t: nat)
    requires Inv(x, z, k, i, w, h) && Prompt(x, z.p, z.d, t)
    ensures x.s.tx.state == WaitFc ==> t <= w + 2 * z.d
    ensures x.s.tx.state == SendCf ==> t <= w + z.Gap()
    ensures x.s.rx.asm.receiving ==> h <= t < h + z.c.rcfg.nCr
    ensures x.dataAt != [] ==> t <= w + z.d
    ensures k < z.Frames() ==> x.s.tx.Streaming()
  {
    hide Segment, Phase, FcFrame, SendTime, Spaced;
  }

  /** No timeout fires at such a time. */
  ghost predicate NoTimeout(s: S.Session, c: S.Setup, t: nat) {
    && (s.tx.state == WaitFc ==> Elapsed(Reads(t), s.tx.timerStart) < c.nBs)
    && (s.rx.asm.receiving ==> Elapsed(Reads(t), s.rx.timerStart) < c.rcfg.nCr)
  }

  lemma NoneFires(x: Timed, z: Job, k: nat, i: nat, w: nat, h: nat, t: nat)
    requires Inv(x, z, k, i, w, h) && Prompt(x, z.p, z.d, t)
    ensures NoTimeout(x.s, z.c, t)
  {
    hide Segment, Phase, FcFrame, SendTime, Spaced, Picture;
    Waits(x, z, k, i, w, h, t);
    if x.s.tx.state == WaitFc { IsoTpTiming.ElapsedSmall(t, w); }
    if x.s.rx.asm.receiving { IsoTpTiming.ElapsedSmall(t, h); }
  }

  lemma {:induction false} SendTimeGrows(bs: u8, gap: nat, d: nat, k: nat, n: nat)
    requires 1 <= k <= n
    ensures SendTime(bs, gap, d, k) <= SendTime(bs, gap, d, n)
    decreases n - k
  {
    if k < n { SendTimeGrows(bs, gap, d, k, n - 1); }
  }

  /** Frames that leave at time t. */
  lemma SpacedMore(at: seq<nat>, gap: nat, w: nat, n: nat, t: nat)
    requires Spaced(at, gap, w) && (at != [] ==> w <= t <= w + gap)
    ensures Spaced(at + seq(n, _ => t), gap, if n > 0 then t else w)
  {}

  lemma SpacedLess(at: seq<nat>, gap: nat, w: nat)
    requires Spaced(at, gap, w) && at != []
    ensures Spaced(at[1..], gap, w) && (|at| > 1 ==> at[1] <= at[0] + gap)
  {}

  lemma {:induction false} SpacedFirst(at: seq<nat>, gap: nat, w: nat)
    requires Spaced(at, gap, w) && at != []
    ensures at[0] <= w
    decreases |at|
  {
    if |at| > 1 { SpacedFirst(at[1..], gap, w); }
  }

  // ---------------------------------------------------------------------------------------------
  // Events
  // ---------------------------------------------------------------------------------------------

  /** Consecutive frames leave at time t, in a periodic call or upon a continue-to-send. */
  lemma BurstOnTime(x: Timed, y: Timed, z: Job, k: nat, i: nat, w: nat, h: nat, n: nat, t: nat)
    requires Inv(x, z, k, i, w, h) && Prompt(x, z.p, z.d, t) && k < z.Frames()
    requires x.s.tx.state == WaitFc ==> x.fcAt != []
    requires k < n && Picture(y.s, z, n, i) && y.s.rx == x.s.rx && (x.s.tx.state == SendCf ==> n == k + 1)
    requires y.now == t && x.polled <= y.polled <= t && y.fcAt == []
    requires y.dataAt == x.dataAt + seq(n - k, _ => t)
    requires y.s.tx.state == SendCf ==> y.s.tx.lastCf == Reads(t) && z.StMin() > 0
    requires y.s.tx.state == WaitFc ==> y.s.tx.timerStart == Reads(t)
    ensures Inv(y, z, n, i, t, h)
  {
    hide Segment, Phase, FcFrame, Spaced, SendTime;
    Waits(x, z, k, i, w, h, t);
    NextSend(z, k);
    SendTimeGrows(z.Bs(), z.Gap(), z.d, k + 1, n);
    SpacedMore(x.dataAt, z.Gap(), w, n - k, t);
    assert y.s.fcQ == [];
  }

  lemma NextSend(z: Job, k: nat)
    requires k >= 1
    ensures SendTime(z.Bs(), z.Gap(), z.d, k + 1)
         == SendTime(z.Bs(), z.Gap(), z.d, k) + (if Pause(z.Bs(), k) then 2 * z.d else z.Gap())
  {
    hide Pause;
  }

  /** Nothing but time has passed. */
  lemma StandsStill(x: Timed, y: Timed, z: Job, k: nat, i: nat, w: nat, h: nat, t: nat)
    requires Inv(x, z, k, i, w, h) && Prompt(x, z.p, z.d, t)
    requires y.s == x.s && y.dataAt == x.dataAt && y.fcAt == x.fcAt && y.now == t
    requires y.polled == x.polled || (y.polled == t && (x.s.tx.state == SendCf ==> t <= w + z.StMin()))
    ensures Inv(y, z, k, i, w, h)
  {
    hide Picture, Job.Feasible, Spaced, SendTime;
  }

  lemma TimesSame(at: seq<nat>, n: nat, t: nat)
    ensures Times(at, n, n, t) == at
  {}

  lemma QueueLength(s: S.Session, z: Job, k: nat, i: nat)
    requires Picture(s, z, k, i)
    ensures |s.dataQ| == k - i && (s.fcQ == [] || (i == k < z.Frames() && |s.fcQ| == 1 && s.tx.state == WaitFc))
    ensures s.tx.state == SendCf ==> TxMid(s.tx, z, k) && s.fcQ == [] && !Pause(z.Bs(), k)
    ensures s.tx.state != SendFirst && s.tx.Valid() && s.rx.Valid()
  {
    hide Segment, Phase, FcFrame, RxAt;
  }

  lemma SenderStep(x: Timed, z: Job, k: nat, i: nat, w: nat, h: nat, t: nat) returns (n: nat, w': nat)
    requires Inv(x, z, k, i, w, h) && Prompt(x, z.p, z.d, t)
    ensures Inv(Do(x, z.c, SenderCall, t), z, n, i, w', h) && k <= n
  {
    hide Picture, Spaced, SendTime, Burst, Job.Feasible, Prompt, Times;
    NoneFires(x, z, k, i, w, h, t);
    QueueLength(x.s, z, k, i);
    TimesSame(x.dataAt, |x.s.dataQ|, t);
    TimesSame(x.fcAt, |x.s.fcQ|, t);
    var y := Do(x, z.c, SenderCall, t);
    n, w' := k, w;
    if x.s.tx.state == SendCf && !StMinHolds(x.s.tx, Reads(t)) {
      n := Leaves(x, z, k, i, w, h, t);
      w' := t;
    } else {
      if x.s.tx.state == SendCf { StaysPut(x.s, z.c, t); StillHolds(x, z, k, i, w, h, t); }
      WaitsOn(x.s, z.c, t);
      StandsStill(x, y, z, k, i, w, h, t);
    }
  }

  /** A periodic call in which nothing is due. */
  lemma WaitsOn(s: S.Session, c: S.Setup, t: nat)
    requires s.tx.Valid() && s.rx.Valid() && s.tx.state != SendFirst && NoTimeout(s, c, t)
    requires s.tx.state == SendCf ==> Burst(s, c, t) == s
    ensures MainSender(s, c, t) == s
  {
    hide Burst;
    assert s.dataQ + [] == s.dataQ;
  }

  lemma StillHolds(x: Timed, z: Job, k: nat, i: nat, w: nat, h: nat, t: nat)
    requires Inv(x, z, k, i, w, h) && Prompt(x, z.p, z.d, t) && x.s.tx.state == SendCf && StMinHolds(x.s.tx, Reads(t))
    ensures t <= w + z.StMin()
  {
    hide Spaced, SendTime, Segment, RxAt, Phase, FcFrame;
    Waits(x, z, k, i, w, h, t);
    IsoTpTiming.ElapsedSmall(t, w);
  }

  lemma Leaves(x: Timed, z: Job, k: nat, i: nat, w: nat, h: nat, t: nat) returns (n: nat)
    requires Inv(x, z, k, i, w, h) && Prompt(x, z.p, z.d, t) && x.s.tx.state == SendCf && !StMinHolds(x.s.tx, Reads(t))
    ensures Inv(Do(x, z.c, SenderCall, t), z, n, i, t, h) && k < n
  {
    hide Segment, Phase, FcFrame, Spaced, SendTime, RxAt, Burst, TxAt;
    QueueLength(x.s, z, k, i);
    n := BurstRuns(x.s, z, k, i, t);
    var y := Do(x, z.c, SenderCall, t);
    QueueLength(y.s, z, n, i);
    BurstOnTime(x, y, z, k, i, w, h, n, t);
  }

  lemma StaysPut(s: S.Session, c: S.Setup, t: nat)
    requires s.tx.Valid() && s.rx.Valid() && StMinHolds(s.tx, Reads(t))
    ensures Burst(s, c, t) == s
  {}

  lemma ReceiverStep(x: Timed, z: Job, k: nat, i: nat, w: nat, h: nat, t: nat)
    requires Inv(x, z, k, i, w, h) && Prompt(x, z.p, z.d, t)
    ensures Inv(Do(x, z.c, ReceiverCall, t), z, k, i, w, h)
  {
    hide Spaced, SendTime, Prompt, Times, TxAt, RxAt, Segment, FcFrame;
    NoneFires(x, z, k, i, w, h, t);
    Silent(x.s, z.c, t);
    TimesSame(x.dataAt, |x.s.dataQ|, t);
    TimesSame(x.fcAt, |x.s.fcQ|, t);
    StandsStill(x, Do(x, z.c, ReceiverCall, t), z, k, i, w, h, t);
  }

  lemma Silent(s: S.Session, c: S.Setup, t: nat)
    requires s.tx.Valid() && s.rx.Valid() && !s.rx.fcPending && NoTimeout(s, c, t)
    ensures MainReceiver(s, c, t) == s
  {
    assert s.fcQ + [] == s.fcQ && s.inds + [] == s.inds;
  }

  /** A data frame arrives. */
  lemma DataStep(x: Timed, z: Job, k: nat, i: nat, w: nat, h: nat, t: nat) returns (i': nat, h': nat)
    requires Inv(x, z, k, i, w, h) && Prompt(x, z.p, z.d, t)
    ensures Inv(Do(x, z.c, DataIn, t), z, k, i', w, h') && (x.s.dataQ != [] ==> i' == i + 1)
  {
    hide Segment, Phase, FcFrame, SendTime, RxAt, TxAt, Spaced, Pause;
    i', h' := i, h;
    if x.s.dataQ != [] {
      i', h' := i + 1, t;
      Arrives(x.s, z, k, i, t);
      SpacedLess(x.dataAt, z.Gap(), w);
      SpacedFirst(x.dataAt, z.Gap(), w);
      if |x.dataAt| > 1 { SpacedFirst(x.dataAt[1..], z.Gap(), w); }
    }
  }

  lemma Arrives(s: S.Session, z: Job, k: nat, i: nat, t: nat)
    requires Picture(s, z, k, i) && s.dataQ != []
    ensures var r := S.Step(s, z.c, S.DeliverData(Reads(t), true));
      && Picture(r, z, k, i + 1) && r.tx == s.tx && |r.dataQ| == |s.dataQ| - 1
      && |r.fcQ| == (if i + 1 == k < z.Frames() && Pause(z.Bs(), k) then 1 else 0) && s.fcQ == []
      && (r.rx.asm.receiving ==> r.rx.timerStart == Reads(t))
      && (i + 1 < k ==> !Pause(z.Bs(), i + 1))
  {
    hide Phase, FcFrame, RxAt, TxAt, AsmStep, Segment, Pause;
    IsReceiving(s.rx.asm, z, i);
    assert s.dataQ[0] == Segment(z.m)[i] && s.dataQ[1..] == Segment(z.m)[i + 1..k];
    if i == 0 { RxFirst(s.rx.asm, z); } else { RxNext(s.rx.asm, z, i); }
    var o := RxStep(s.rx, z.c.rcfg, Data(s.dataQ[0], CAN_DL, Reads(t), true));
    assert s.fcQ + o.sent == o.sent;
    assert z.before + [] == z.before;
  }

  lemma IsReceiving(a: Asm, z: Job, i: nat)
    requires RxAt(a, z, i)
    ensures IsMessage(z.m) && a.Valid()
  {}

  /** A continue-to-send arrives, and the next block leaves. */
  lemma FcStep(x: Timed, z: Job, k: nat, i: nat, w: nat, h: nat, t: nat) returns (n: nat, w': nat)
    requires Inv(x, z, k, i, w, h) && Prompt(x, z.p, z.d, t)
    ensures Inv(Do(x, z.c, FcIn, t), z, n, i, w', h) && (x.s.fcQ != [] ==> k < n)
  {
    hide Picture, Spaced, SendTime, Burst, TxFc, Job.Feasible, Prompt;
    QueueLength(x.s, z, k, i);
    n, w' := k, w;
    if x.s.fcQ != [] {
      n := Continues(x, z, k, i, w, h, t);
      w' := t;
    } else {
      if x.s.tx.state == WaitFc { NotSending(x.s, z.c, t); }
      TimesSame(x.dataAt, |x.s.dataQ|, t);
      TimesSame(x.fcAt, |x.s.fcQ|, t);
      StandsStill(x, Do(x, z.c, FcIn, t), z, k, i, w, h, t);
    }
  }

  lemma Continues(x: Timed, z: Job, k: nat, i: nat, w: nat, h: nat, t: nat) returns (n: nat)
    requires Inv(x, z, k, i, w, h) && Prompt(x, z.p, z.d, t) && x.s.fcQ != []
    ensures Inv(Do(x, z.c, FcIn, t), z, n, i, t, h) && k < n
  {
    hide Segment, Phase, FcFrame, Spaced, SendTime, RxAt, Burst, TxAt, TxFc;
    QueueLength(x.s, z, k, i);
    Released(x.s, z, k, t);
    var next := S.Step(x.s, z.c, S.DeliverFc(Reads(t)));
    n := BurstRuns(next, z, k, i, t);
    var y := Do(x, z.c, FcIn, t);
    QueueLength(y.s, z, n, i);
    BurstOnTime(x, y, z, k, i, w, h, n, t);
  }

  lemma NotSending(s: S.Session, c: S.Setup, t: nat)
    requires s.tx.Valid() && s.rx.Valid() && s.tx.state != SendCf
    ensures Burst(s, c, t) == s
  {}

  lemma Released(s: S.Session, z: Job, k: nat, t: nat)
    requires Picture(s, z, k, k) && s.fcQ != []
    ensures var r := S.Step(s, z.c, S.DeliverFc(Reads(t)));
      && TxMid(r.tx, z, k) && Streams(r, z, k, k) && r.fcQ == [] && !StMinHolds(r.tx, Reads(t)) && r.rx == s.rx
  {
    hide Segment, RxAt;
    IsoTpTiming.ElapsedSmall(t, t);
    IsoTpTiming.FirstCfEligible(s.tx, s.fcQ[0], CAN_DL, Reads(t), Reads(t));
  }

  lemma {:induction false} EventStep(x: Timed, z: Job, k: nat, i: nat, w: nat, h: nat, e: Event, t: nat)
    returns (k': nat, i': nat, w': nat, h': nat)
    requires Inv(x, z, k, i, w, h) && Prompt(x, z.p, z.d, t)
    ensures Inv(Do(x, z.c, e, t), z, k', i', w', h')
  {
    hide Picture, Job.Feasible;
    k', i', w', h' := k, i, w, h;
    match e
    case SenderCall => k', w' := SenderStep(x, z, k, i, w, h, t);
    case ReceiverCall => ReceiverStep(x, z, k, i, w, h, t);
    case DataIn => i', h' := DataStep(x, z, k, i, w, h, t);
    case FcIn => k', w' := FcStep(x, z, k, i, w, h, t);
    case Idle =>
  }

  lemma UpToDate(x: Timed, z: Job, k: nat, i: nat, w: nat, h: nat, e: Event, t: nat)
    requires Inv(x, z, k, i, w, h) && Prompt(x, z.p, z.d, t)
    ensures Prompt(Do(x, z.c, e, t), z.p, z.d, t)
  {
    hide Job.Feasible, SendTime, Burst, MainSender, MainReceiver, TakeFc, TxAt, RxAt, Segment, FcFrame, Pause;
    QueueLength(x.s, z, k, i);
    hide Picture, S.Step;
  }

  lemma {:induction false} RunInv(x: Timed, z: Job, k: nat, i: nat, w: nat, h: nat, es: seq<(Event, nat)>)
    returns (k': nat, i': nat, w': nat, h': nat)
    requires Inv(x, z, k, i, w, h) && Prompt(x, z.p, z.d, x.now) && PromptRun(x, z.c, z.p, z.d, es)
    ensures var y := Run(x, z.c, es); Inv(y, z, k', i', w', h') && Prompt(y, z.p, z.d, y.now)
    decreases |es|
  {
    hide RxAt, TxAt, OnTime, Prompt, Segment, FcFrame, Job.Feasible, Times, MainSender, MainReceiver, TakeFc;
    k', i', w', h' := k, i, w, h;
    if es != [] {
      k', i', w', h' := EventStep(x, z, k, i, w, h, es[0].0, es[0].1);
      UpToDate(x, z, k, i, w, h, es[0].0, es[0].1);
      k', i', w', h' := RunInv(Do(x, z.c, es[0].0, es[0].1), z, k', i', w', h', es[1..]);
    }
  }

  // ---------------------------------------------------------------------------------------------
  // The deadline
  // ---------------------------------------------------------------------------------------------

  /** Nothing under way, and room for the message at both ends. */
  ghost predicate Rested(s: S.Session, z: Job) {
    && s.tx.Valid() && TransmitResult(s.tx, z.m) == Ok && s.dataQ == [] && s.fcQ == []
    && s.rx.Valid() && !s.rx.asm.receiving && !s.rx.fcPending && |z.m| <= |s.rx.asm.buf| && s.inds == z.before
  }

  /** The moment after IsoTp_Transmit; `polled` is the last periodic call of the sender. */
  ghost function Transmitted(s: S.Session, z: Job, polled: nat): (x: Timed)
    requires s.tx.Valid() && s.rx.Valid()
    ensures x.s.tx.Valid() && x.s.rx.Valid()
  {
    Timed(S.Step(s, z.c, S.Send(Transmit(z.m, Reads(z.start), true, Reads(z.start)))), z.start, polled, [z.start], [])
  }

  /** For each continue-to-send a way there and back, for each other frame a gap, and the way of the last frame. */
  ghost function Duration(z: Job): int
    requires IsMessage(z.m)
  {
    var fcs := C.FcFrames(|z.m|, z.Bs());
    z.d + 2 * z.d * fcs + z.Gap() * (z.Frames() - 1 - fcs)
  }

  ghost function Fcs(bs: u8, k: nat): nat {
    if k <= 1 then 0 else if bs == 0 then 1 else 1 + (k - 2) / bs
  }

  lemma PhaseIs(bs: u8, k: nat)
    requires bs > 0 && k >= 1
    ensures Phase(bs, k) == (k - 1) % bs
    decreases k
  {
    if k > 1 {
      PhaseIs(bs, k - 1);
      PhaseNext(bs, k - 1);
      Arith.NextInBlock(k - 2, bs);
      Arith.DivMod(k - 2, bs);
    }
  }

  /** The k-th pause is the k-th continue-to-send. */
  lemma FcsNext(bs: u8, k: nat)
    requires k >= 1
    ensures Fcs(bs, k + 1) == Fcs(bs, k) + (if Pause(bs, k) then 1 else 0)
  {
    if bs > 0 && k > 1 {
      PhaseIs(bs, k);
      Arith.NextInBlock(k - 2, bs);
      Arith.DivMod(k - 2, bs);
    }
  }

  lemma {:induction false} SendTimeIs(bs: u8, gap: nat, d: nat, k: nat)
    requires k >= 1
    ensures SendTime(bs, gap, d, k) == 2 * d * Fcs(bs, k) + gap * (k - 1 - Fcs(bs, k))
    decreases k
  {
    hide Pause, Fcs;
    if k > 1 {
      SendTimeIs(bs, gap, d, k - 1);
      FcsNext(bs, k - 1);
      var f := Fcs(bs, k - 1);
      if Pause(bs, k - 1) { assert 2 * d * (f + 1) == 2 * d * f + 2 * d; }
      else { assert gap * (k - 1 - f) == gap * (k - 2 - f) + gap; }
    } else {
      NoFcs(bs);
    }
  }

  lemma NoFcs(bs: u8)
    ensures Fcs(bs, 1) == 0
  {}

  lemma DurationIs(z: Job)
    requires IsMessage(z.m)
    ensures Duration(z) == z.d + SendTime(z.Bs(), z.Gap(), z.d, z.Frames())
  {
    IsoTpSender.SegmentLength(z.m);
    SendTimeIs(z.Bs(), z.Gap(), z.d, z.Frames());
    hide SendTime, Segment;
  }

  lemma Begins(s: S.Session, z: Job, polled: nat)
    requires z.Feasible() && Rested(s, z) && polled <= z.start <= polled + z.p
    ensures var x := Transmitted(s, z, polled); Inv(x, z, 1, 0, z.start, z.start) && Prompt(x, z.p, z.d, x.now)
  {
    hide Segment, Loaded, TxFirst;
    var now := Reads(z.start);
    IsoTpSender.TransmitStep(s.tx, z.m, now, true, now);
    IsoTpSender.SegmentLength(z.m);
    FirstTimer(Loaded(s.tx, z.m, now), now);
    assert [] + [Segment(z.m)[0]] == Segment(z.m)[0..1];
    assert z.before + [] == z.before;
  }

  lemma FirstTimer(tx: Tx, now: u32)
    requires tx.Valid() && tx.state == SendFirst
    ensures TxFirst(tx, true, now).tx.state == WaitFc ==> TxFirst(tx, true, now).tx.timerStart == now
  {}

  /** Once the time is over, everything has been sent and delivered. */
  lemma AllDone(x: Timed, z: Job, k: nat, i: nat, w: nat, h: nat)
    requires Inv(x, z, k, i, w, h) && Prompt(x, z.p, z.d, x.now) && x.now > z.start + Duration(z)
    ensures i == z.Frames() && !x.s.tx.Busy()
  {
    hide Segment, Phase, FcFrame, Spaced, SendTime, RxAt;
    DurationIs(z);
    Waits(x, z, k, i, w, h, x.now);
    SendTimeGrows(z.Bs(), z.Gap(), z.d, k, z.Frames());
    QueueLength(x.s, z, k, i);
    if k < z.Frames() {
      NextSend(z, k);
      SendTimeGrows(z.Bs(), z.Gap(), z.d, k + 1, z.Frames());
    }
  }

  /**
   * Every message from a moment of rest, for every block size and separation time: if 2d < N_Bs, 2d < N_Cr and
   * STmin + p + d < N_Cr (without a separation time the last is not needed), no timeout ever fires, and once
   * `Duration` has passed the message has been indicated and the sender is idle.
   */
  lemma InTime(s: S.Session, z: Job, polled: nat, es: seq<(Event, nat)>)
    requires z.Feasible() && Rested(s, z) && polled <= z.start <= polled + z.p
    requires PromptRun(Transmitted(s, z, polled), z.c, z.p, z.d, es)
    ensures var x := Run(Transmitted(s, z, polled), z.c, es);
      && (x.s.inds == s.inds || x.s.inds == s.inds + [Ind(z.m, Ok)])
      && (forall t :: Prompt(x, z.p, z.d, t) ==> NoTimeout(x.s, z.c, t))
      && (x.now > z.start + Duration(z) ==> x.s.inds == s.inds + [Ind(z.m, Ok)] && !x.s.tx.Busy())
  {
    Begins(s, z, polled);
    var k, i, w, h := RunInv(Transmitted(s, z, polled), z, 1, 0, z.start, z.start, es);
    var x := Run(Transmitted(s, z, polled), z.c, es);
    hide Run, PromptRun, Transmitted, Prompt, OnTime, Job.Feasible, NoTimeout, Duration, TxAt, RxAt, Segment, FcFrame;
    forall t | Prompt(x, z.p, z.d, t) ensures NoTimeout(x.s, z.c, t) { NoneFires(x, z, k, i, w, h, t); }
    if x.now > z.start + Duration(z) { AllDone(x, z, k, i, w, h); }
    assert s.inds + [] == s.inds;
  }

  // ---------------------------------------------------------------------------------------------
  // Such runs exist
  // ---------------------------------------------------------------------------------------------

  ghost function Left(x: Timed, z: Job, k: nat): nat
    requires IsMessage(z.m) && k <= z.Frames()
  {
    3 * (z.Frames() - k) + 2 * |x.s.dataQ| + |x.s.fcQ|
  }

  lemma Clock(x: Timed, c: S.Setup, e: Event, t: nat)
    requires x.s.tx.Valid() && x.s.rx.Valid()
    ensures Do(x, c, e, t).now == t && Do(x, c, e, t).polled == if e == SenderCall then t else x.polled
  {}

  /** Frames sent and frames delivered determine what is queued. */
  lemma SameQueues(s: S.Session, r: S.Session, z: Job, k: nat, i: nat)
    requires Picture(s, z, k, i) && Picture(r, z, k, i)
    ensures s.dataQ == r.dataQ && s.fcQ == r.fcQ
  {
    hide Segment, TxAt, RxAt, FcFrame;
  }

  /** Everything due is done at once, and then a millisecond passes. */
  lemma {:induction false} OneMore(x: Timed, z: Job, k: nat, i: nat, w: nat, h: nat) returns (es: seq<(Event, nat)>)
    requires Inv(x, z, k, i, w, h) && Prompt(x, z.p, z.d, x.now) && z.p >= 1 && k <= z.Frames()
    ensures PromptRun(x, z.c, z.p, z.d, es) && Run(x, z.c, es).now == x.now + 1
    decreases Left(x, z, k), x.now - x.polled
  {
    hide Picture, OnTime, Prompt, Job.Feasible, Segment, Do, Left;
    QueueLength(x.s, z, k, i);
    Queues(x, z, k, i, w, h);
    if x.s.dataQ == [] && x.s.fcQ == [] && x.polled == x.now {
      NothingDue(x, z);
      Clock(x, z.c, Idle, x.now + 1);
      var e := (Idle, x.now + 1);
      var y := Do(x, z.c, Idle, x.now + 1);
      assert [e][1..] == [];
      es := [e];
    } else {
      var e := if x.s.dataQ != [] then DataIn else if x.s.fcQ != [] then FcIn else SenderCall;
      var y := Do(x, z.c, e, x.now);
      var k', i', w', h' := k, i, w, h;
      if x.s.dataQ != [] { i', h' := DataStep(x, z, k, i, w, h, x.now); }
      else if x.s.fcQ != [] { k', w' := FcStep(x, z, k, i, w, h, x.now); }
      else { k', w' := SenderStep(x, z, k, i, w, h, x.now); }
      UpToDate(x, z, k, i, w, h, e, x.now);
      Queues(y, z, k', i', w', h');
      Clock(x, z.c, e, x.now);
      Lowers(x, y, z, k, i, k', i', e);
      var rest := OneMore(y, z, k', i', w', h');
      es := [(e, x.now)] + rest;
    }
  }

  lemma NothingDue(x: Timed, z: Job)
    requires x.dataAt == [] && x.fcAt == [] && x.polled == x.now && z.p >= 1
    ensures Prompt(x, z.p, z.d, x.now + 1)
  {}

  lemma Queues(x: Timed, z: Job, k: nat, i: nat, w: nat, h: nat)
    requires Inv(x, z, k, i, w, h)
    ensures |x.dataAt| == |x.s.dataQ| && |x.fcAt| == |x.s.fcQ| && x.polled <= x.now && Picture(x.s, z, k, i)
    ensures x.s.tx.Valid() && x.s.rx.Valid() && IsMessage(z.m) && k <= z.Frames()
  {
    hide Segment, TxAt, RxAt, FcFrame;
  }

  lemma Lowers(x: Timed, y: Timed, z: Job, k: nat, i: nat, k': nat, i': nat, e: Event)
    requires x.s.tx.Valid() && x.s.rx.Valid() && IsMessage(z.m) && y == Do(x, z.c, e, x.now)
    requires Picture(x.s, z, k, i) && Picture(y.s, z, k', i') && k <= z.Frames() && k' <= z.Frames()
    requires if e == DataIn then i' == i + 1 && k' == k
      else i' == i && if e == FcIn then k < k' && x.s.fcQ != [] else e == SenderCall && i == k <= k'
    ensures Left(y, z, k') < Left(x, z, k) || (e == SenderCall && Left(y, z, k') == Left(x, z, k) && y.polled == y.now)
    ensures y.now == x.now
  {
    hide Picture, Segment, MainSender, MainReceiver, TakeFc, S.Step;
    QueueLength(x.s, z, k, i);
    QueueLength(y.s, z, k', i');
    if e == SenderCall && k' == k { SameQueues(x.s, y.s, z, k, i); }
  }

  /** Any later time can be reached by a run in which everything happens when it is due. */
  lemma {:induction false} TimeGoesOn(s: S.Session, z: Job, polled: nat, es: seq<(Event, nat)>, n: nat)
    returns (more: seq<(Event, nat)>)
    requires z.Feasible() && Rested(s, z) && polled <= z.start <= polled + z.p && z.p >= 1
    requires PromptRun(Transmitted(s, z, polled), z.c, z.p, z.d, es)
    ensures PromptRun(Transmitted(s, z, polled), z.c, z.p, z.d, es + more)
    ensures Run(Transmitted(s, z, polled), z.c, es + more).now
         == Run(Transmitted(s, z, polled), z.c, es).now + n
    decreases n
  {
    hide Transmitted, Inv, Prompt, Run, PromptRun, Job.Feasible;
    var x := Transmitted(s, z, polled);
    if n == 0 {
      assert es + [] == es;
      more := [];
    } else {
      Begins(s, z, polled);
      var k, i, w, h := RunInv(x, z, 1, 0, z.start, z.start, es);
      var y := Run(x, z.c, es);
      Queues(y, z, k, i, w, h);
      var ms := OneMore(y, z, k, i, w, h);
      Then(x, z, es, ms);
      var rest := TimeGoesOn(s, z, polled, es + ms, n - 1);
      assert (es + ms) + rest == es + (ms + rest);
      more := ms + rest;
    }
  }

  lemma {:induction false} Then(x: Timed, z: Job, a: seq<(Event, nat)>, b: seq<(Event, nat)>)
    requires x.s.tx.Valid() && x.s.rx.Valid()
    requires PromptRun(x, z.c, z.p, z.d, a) && PromptRun(Run(x, z.c, a), z.c, z.p, z.d, b)
    ensures PromptRun(x, z.c, z.p, z.d, a + b) && Run(x, z.c, a + b) == Run(Run(x, z.c, a), z.c, b)
    decreases |a|
  {
    hide Do, Prompt;
    if a == [] { assert a + b == b; }
    else {
      assert (a + b)[1..] == a[1..] + b && (a + b)[0] == a[0];
      Then(Do(x, z.c, a[0].0, a[0].1), z, a[1..], b);
    }
  }
}
