/**
 * Real time against the wrapping millisecond clock: the separation time between consecutive frames, and how
 * long the sender can be kept waiting.
 */
module IsoTpTiming {
  import opened Words
  import opened IsoTpModel

  /** The reading of the millisecond clock at a real instant, in ms. */
  ghost function Clock(t: real): u32
    requires t >= 0.0
  {
    t.Floor % TWO32
  }

  /** The separation time a flow control frame asks for (table 20 of ISO 15765-2), in ms. */
  ghost function Requested(raw: u8): real {
    if raw <= 0x7F then raw as real
    else if 0xF1 <= raw <= 0xF9 then (raw - 0xF0) as real / 10.0
    else 127.0
  }

  lemma DecodeCovers(raw: u8)
    ensures DecodeStMin(raw) as real >= Requested(raw)
    ensures DecodeStMin(raw) as real < Requested(raw) + 1.0
  {}

  /** If the clock says more than `ms` passed between two readings, more than `ms` did, wrapped or not. */
  lemma ElapsedIsReal(record: real, check: real, ms: u32)
    requires 0.0 <= record <= check && Elapsed(Clock(check), Clock(record)) > ms
    ensures check - record > ms as real
  {
    var d := check.Floor - record.Floor;
    assert d >= 0;
    assert Elapsed(Clock(check), Clock(record)) == d % TWO32 by { ModSub(check.Floor, record.Floor); }
    assert d % TWO32 <= d;
    assert d >= ms + 1;
  }

  lemma ModSub(a: int, b: int)
    ensures (a % TWO32 - b % TWO32) % TWO32 == (a - b) % TWO32
  {}

  // ---------------------------------------------------------------------------------------------
  // Separation of consecutive frames
  // ---------------------------------------------------------------------------------------------

  /** An action with the real instants of its clock readings and of its frame leaving. */
  datatype Timed = Timed(act: TxAct, check: real, send: real, record: real)

  /**
   * `last`: the consecutive frame sent last in the open block; `raw`: the STmin byte of the continue-to-send that
   * opened it; `gaps`: the separation of each pair of frames in one block, with the STmin byte that applied.
   */
  datatype Pace = Pace(tx: Tx, now: real, last: Option<Timed>, raw: u8, gaps: seq<(real, u8)>)

  ghost predicate Follows(p: Pace, t: Timed) {
    && 0.0 <= p.now <= t.check <= t.send <= t.record
    && (t.act.Cf? ==> t.act.check == Clock(t.check) && t.act.record == Clock(t.record))
  }

  /** An action that changes nothing, such as a refused Transmit, does not end the block. */
  ghost function Next(p: Pace, nBs: u16, t: Timed): Pace
    requires p.tx.Valid()
  {
    var o := TxStep(p.tx, nBs, t.act);
    if t.act.Cf? && o.sent != [] then
      Pace(o.tx, t.record, Some(t), p.raw,
           if p.last.Some? then p.gaps + [(t.send - p.last.value.send, p.raw)] else p.gaps)
    else if o.tx == p.tx then p.(now := t.record)
    else p.(tx := o.tx, now := t.record, last := None, raw := if t.act.Fc? then t.act.data[2] else p.raw)
  }

  ghost predicate InOrder(p: Pace, nBs: u16, ts: seq<Timed>)
    requires p.tx.Valid()
    decreases |ts|
  {
    ts == [] || (Follows(p, ts[0]) && InOrder(Next(p, nBs, ts[0]), nBs, ts[1..]))
  }

  ghost function Run(p: Pace, nBs: u16, ts: seq<Timed>): Pace
    requires p.tx.Valid()
    decreases |ts|
  {
    if ts == [] then p else Run(Next(p, nBs, ts[0]), nBs, ts[1..])
  }

  /** Frames of a block that asked for a separation time are further apart than the decoded, so than the asked one. */
  ghost predicate Apart(gaps: seq<(real, u8)>) {
    forall i :: 0 <= i < |gaps| && gaps[i].1 != 0 ==>
      gaps[i].0 > DecodeStMin(gaps[i].1) as real >= Requested(gaps[i].1)
  }

  ghost predicate PaceInv(p: Pace) {
    && p.tx.Valid() && p.now >= 0.0
    && (p.tx.state == SendCf ==> p.tx.stMin == DecodeStMin(p.raw))
    && (p.last.Some? && p.tx.state == SendCf ==>
          && 0.0 <= p.last.value.send <= p.last.value.record <= p.now
          && p.tx.lastCf == Clock(p.last.value.record))
    && Apart(p.gaps)
  }

  /** What a consecutive frame that leaves says about the clock, for any timeout. */
  lemma CfTimes(tx: Tx, nBs: u16, act: TxAct)
    requires tx.Valid() && act.Cf?
    ensures var o := TxStep(tx, nBs, act);
      && (o.sent == [] ==> o.tx == tx)
      && (o.sent != [] ==>
           tx.state == SendCf && !StMinHolds(tx, act.check) && o.tx.lastCf == act.record && o.tx.stMin == tx.stMin)
  {}

  /** Only a continue-to-send brings the sender into SEND_CF, with the separation time it asks for. */
  lemma CtsSetsStMin(tx: Tx, nBs: u16, act: TxAct)
    requires tx.Valid() && !act.Cf?
    ensures var o := TxStep(tx, nBs, act);
      o.tx.state == SendCf && o.tx != tx ==> act.Fc? && o.tx.stMin == DecodeStMin(act.data[2])
  {}

  lemma GapAdded(gaps: seq<(real, u8)>, gap: real, raw: u8)
    requires Apart(gaps) && (raw != 0 ==> gap > DecodeStMin(raw) as real)
    ensures Apart(gaps + [(gap, raw)])
  {
    DecodeCovers(raw);
    hide DecodeStMin, Requested;
  }

  lemma PaceStep(p: Pace, nBs: u16, t: Timed)
    requires PaceInv(p) && Follows(p, t)
    ensures PaceInv(Next(p, nBs, t))
  {
    hide TxStep, Clock, Apart, DecodeStMin;
    if t.act.Cf? {
      CfTimes(p.tx, nBs, t.act);
      if TxStep(p.tx, nBs, t.act).sent != [] && p.last.Some? {
        DecodedZero(p.raw);
        if p.raw != 0 { ElapsedIsReal(p.last.value.record, t.check, p.tx.stMin); }
        GapAdded(p.gaps, t.send - p.last.value.send, p.raw);
      }
    } else {
      CtsSetsStMin(p.tx, nBs, t.act);
    }
  }

  lemma DecodedZero(raw: u8)
    ensures DecodeStMin(raw) == 0 <==> raw == 0
  {}

  lemma {:induction false} PaceRun(p: Pace, nBs: u16, ts: seq<Timed>)
    requires PaceInv(p) && InOrder(p, nBs, ts)
    ensures PaceInv(Run(p, nBs, ts))
    decreases |ts|
  {
    hide Next, Follows;
    if ts != [] {
      PaceStep(p, nBs, ts[0]);
      PaceRun(Next(p, nBs, ts[0]), nBs, ts[1..]);
    }
  }

  /**
   * In every run of the sender from any idle state, at any instants, for any number of clock wraps, with any calls
   * and flow control frames in between: two consecutive frames of one block whose continue-to-send carried the STmin
   * byte raw leave strictly more than DecodeStMin(raw), and so more than the requested time, apart.
   */
  lemma SeparationTime(tx: Tx, now: real, nBs: u16, ts: seq<Timed>)
    requires tx.Valid() && !tx.Busy() && now >= 0.0 && InOrder(Pace(tx, now, None, 0, []), nBs, ts)
    ensures Apart(Run(Pace(tx, now, None, 0, []), nBs, ts).gaps)
  {
    PaceRun(Pace(tx, now, None, 0, []), nBs, ts);
  }

  /** A Transmit that is refused in the middle of a block leaves the pair around it in the record. */
  lemma RefusedTransmitKeepsBlock(p: Pace, nBs: u16, t: Timed)
    requires p.tx.Valid() && t.act.Transmit? && p.tx.Busy()
    ensures Next(p, nBs, t) == p.(now := t.record)
  {}

  /** The first consecutive frame after a continue-to-send need not wait. */
  lemma FirstCfEligible(tx: Tx, data: Frame, dlc: u8, now: u32, check: u32)
    requires tx.Valid() && tx.state == WaitFc && dlc >= 3 && data[0] % 16 == FC_CTS
    requires Elapsed(check, now) < TWO32 - 0x80
    ensures var t := TxFc(tx, data, dlc, now).tx;
      t.state == SendCf && t.stMin == DecodeStMin(data[2]) && !StMinHolds(t, check)
  {
    ElapsedAhead(check, now, DecodeStMin(data[2]) + 1);
    hide Elapsed;
  }

  lemma ElapsedCases(later: u32, earlier: u32)
    ensures Elapsed(later, earlier) == if later >= earlier then later - earlier else later - earlier + TWO32
  {}

  /** Setting a time stamp back by k adds k to what has elapsed since. */
  lemma ElapsedAhead(later: u32, earlier: u32, k: u32)
    requires Elapsed(later, earlier) + k < TWO32
    ensures Elapsed(later, Elapsed(earlier, k)) == Elapsed(later, earlier) + k
  {
    ElapsedCases(later, earlier);
    ElapsedCases(earlier, k);
    ElapsedCases(later, Elapsed(earlier, k));
    hide Elapsed;
  }

  /** The weaker test `elapsed >= STmin` lets frames through after less than STmin, for every STmin. */
  lemma WeakerTestIsShort(ms: u32) returns (record: real, check: real)
    requires 0 < ms < TWO32 - 1
    ensures 0.0 <= record <= check && Elapsed(Clock(check), Clock(record)) >= ms
    ensures check - record < ms as real
  {
    record, check := 0.9, ms as real;
    assert record.Floor == 0;
    assert check.Floor == ms;
  }

  // ---------------------------------------------------------------------------------------------
  // How long a sender can wait
  // ---------------------------------------------------------------------------------------------

  /**
   * An action of the sender between two instants in ms: its first clock reading is taken at `begin`, its last one at
   * `time`. `poll`: it is the sender part of MainFunction.
   */
  datatype Event = Event(begin: nat, time: nat, act: TxAct, poll: bool)

  /** `since`: when the state was entered; `armed`: when the timer was started last; `polled`: the last MainFunction. */
  datatype Wait = Wait(tx: Tx, since: nat, armed: nat, polled: nat, now: nat)

  /** The clock readings of an action that matter to the timers. */
  ghost predicate Stamped(e: Event) {
    match e.act
    case Transmit(_, now, _, after) => now == e.begin % TWO32 && after == e.time % TWO32
    case FirstRetry(_, after, now) => now == e.time % TWO32 && after == e.time % TWO32
    case BsCheck(now) => now == e.time % TWO32
    case Fc(_, _, now) => now == e.time % TWO32
    case Cf(_, _, _, block) => block == e.time % TWO32
  }

  /** What MainFunction does in each state; between two polls anything but its timer checks can happen. */
  ghost predicate PollFits(state: TxState, e: Event) {
    if e.poll then
      && (state == SendFirst ==> e.act.FirstRetry?) && (state == WaitFc ==> e.act.BsCheck?)
            && (state == SendCf ==> e.act.Cf?)
      && !e.act.Transmit? && !e.act.Fc?
    else !e.act.FirstRetry? && !e.act.BsCheck?
  }

  /** In order, stamped by the clock, and MainFunction at least every `p` ms. */
  ghost predicate OnTime(w: Wait, p: nat, e: Event) {
    w.now <= e.begin <= e.time <= w.polled + p && Stamped(e) && PollFits(w.tx.state, e)
  }

  ghost function Pass(w: Wait, nBs: u16, e: Event): Wait
    requires w.tx.Valid()
  {
    var t := TxStep(w.tx, nBs, e.act).tx;
    var start := if t.state == SendFirst then e.begin else e.time;
    var entered := t.state != w.tx.state;
    Wait(t, if entered then start else w.since,
         if entered then start else if t.waitCount != w.tx.waitCount then e.time else w.armed,
         if e.poll then e.time else w.polled, e.time)
  }

  ghost predicate Events(w: Wait, nBs: u16, p: nat, es: seq<Event>)
    requires w.tx.Valid()
    decreases |es|
  {
    es == [] || (OnTime(w, p, es[0]) && Events(Pass(w, nBs, es[0]), nBs, p, es[1..]))
  }

  ghost function After(w: Wait, nBs: u16, es: seq<Event>): Wait
    requires w.tx.Valid()
    decreases |es|
  {
    if es == [] then w else After(Pass(w, nBs, es[0]), nBs, es[1..])
  }

  /** The timer was started at most one timeout and one period ago. */
  ghost predicate Fresh(w: Wait, nBs: u16, p: nat) {
    && w.since <= w.armed <= w.now
    && w.tx.timerStart == w.armed % TWO32
    && w.now <= w.armed + nBs + p
    && (w.polled > w.armed ==> w.polled < w.armed + nBs)
  }

  /** Each accepted FC.WAIT moved the start of the timer by at most one timeout and one period. */
  ghost predicate Waiting(w: Wait, nBs: u16, p: nat) {
    && w.tx.Valid() && w.polled <= w.now <= w.polled + p
    && (w.tx.state == SendCf ==> w.tx.waitCount == 0)
    && (w.tx.state in {SendFirst, WaitFc} ==> Fresh(w, nBs, p))
    && (w.tx.state == WaitFc ==> w.armed <= w.since + w.tx.waitCount * (nBs + p))
    && (w.tx.state == SendFirst ==> w.armed == w.since)
  }

  lemma ElapsedSmall(later: nat, earlier: nat)
    requires earlier <= later < earlier + TWO32
    ensures Elapsed(later % TWO32, earlier % TWO32) == later - earlier
  {
    ModSub(later, earlier);
  }

  /** The wait counter is zero whenever consecutive frames are being sent. */
  lemma NoWaitsInBlock(tx: Tx, nBs: u16, act: TxAct)
    requires tx.Valid() && (tx.state == SendCf ==> tx.waitCount == 0)
    ensures var t := TxStep(tx, nBs, act).tx; t.state == SendCf ==> t.waitCount == 0
  {}

  /** SEND_FIRST is entered by a Transmit, and left at the latest by the first poll after N_Bs. */
  lemma InSendFirst(tx: Tx, nBs: u16, act: TxAct)
    requires tx.Valid()
    ensures var t := TxStep(tx, nBs, act).tx; t.state == SendFirst ==>
      if tx.state == SendFirst then t == tx && (act.FirstRetry? ==> Elapsed(act.now, tx.timerStart) < nBs)
      else act.Transmit? && t.timerStart == act.now
  {}

  /** WAIT_FC is entered with a fresh timer and no FC.WAIT counted; only a counted FC.WAIT restarts the timer. */
  lemma InWaitFc(tx: Tx, nBs: u16, act: TxAct)
    requires tx.Valid() && (tx.state == SendCf ==> tx.waitCount == 0)
    ensures var t := TxStep(tx, nBs, act).tx; t.state == WaitFc ==>
      if tx.state != WaitFc then
        && t.waitCount == 0
        && (act.Transmit? || act.FirstRetry? || act.Cf?)
        && t.timerStart == (if act.Cf? then act.block else act.after)
      else if t == tx then act.BsCheck? ==> Elapsed(act.now, tx.timerStart) < nBs
      else act.Fc? && t.timerStart == act.now && t.waitCount == tx.waitCount + 1
  {}

  lemma MulStep(k: nat, x: nat)
    ensures (k + 1) * x == k * x + x && 0 * x == 0
  {}

  /** Every action of a sender that is polled in time keeps its waits bounded. */
  lemma WaitStep(w: Wait, nBs: u16, p: nat, e: Event)
    requires Waiting(w, nBs, p) && nBs + p < TWO32 && OnTime(w, p, e)
    ensures Waiting(Pass(w, nBs, e), nBs, p)
  {
    hide TxStep, Elapsed;
    NoWaitsInBlock(w.tx, nBs, e.act);
    InSendFirst(w.tx, nBs, e.act);
    InWaitFc(w.tx, nBs, e.act);
    if w.tx.state in {SendFirst, WaitFc} { ElapsedSmall(e.time, w.armed); }
    MulStep(w.tx.waitCount, nBs + p);
  }

  lemma {:induction false} WaitRun(w: Wait, nBs: u16, p: nat, es: seq<Event>)
    requires Waiting(w, nBs, p) && nBs + p < TWO32 && Events(w, nBs, p, es)
    ensures Waiting(After(w, nBs, es), nBs, p)
    decreases |es|
  {
    hide Waiting, OnTime, Pass;
    if es != [] {
      Unfold(w, nBs, p);
      WaitStep(w, nBs, p, es[0]);
      WaitRun(Pass(w, nBs, es[0]), nBs, p, es[1..]);
    }
  }

  lemma Unfold(w: Wait, nBs: u16, p: nat)
    requires Waiting(w, nBs, p)
    ensures w.tx.Valid()
  {}

  /**
   * In every run from an idle sender, with any calls, flow control frames and driver answers: if MainFunction runs at
   * least every P ms, the sender has been in SEND_FIRST for at most N_Bs + P, and in WAIT_FC for at most
   * 11 * (N_Bs + P), even if the peer sends nothing but FC.WAIT.
   */
  lemma BoundedWait(tx: Tx, now: nat, nBs: u16, p: nat, es: seq<Event>)
    requires tx.Valid() && !tx.Busy() && nBs + p < TWO32 && Events(Wait(tx, now, now, now, now), nBs, p, es)
    ensures var r := After(Wait(tx, now, now, now, now), nBs, es);
      && (r.tx.state == SendFirst ==> r.now - r.since <= nBs + p)
      && (r.tx.state == WaitFc ==> r.now - r.since <= (MAX_WFT + 1) * (nBs + p))
  {
    hide After, Events;
    WaitRun(Wait(tx, now, now, now, now), nBs, p, es);
    var r := After(Wait(tx, now, now, now, now), nBs, es);
    if r.tx.state in {SendFirst, WaitFc} { WaitBound(r, nBs, p); }
  }

  lemma WaitBound(r: Wait, nBs: u16, p: nat)
    requires Waiting(r, nBs, p) && r.tx.state in {WaitFc, SendFirst}
    ensures r.now - r.since <= (if r.tx.state == SendFirst then 1 else MAX_WFT + 1) * (nBs + p)
  {
    if r.tx.state == WaitFc { Restarts(r.armed - r.since, r.now - r.armed, r.tx.waitCount, nBs + p); }
  }

  lemma Restarts(before: int, after: int, k: nat, x: nat)
    requires before <= k * x && after <= x && k <= MAX_WFT
    ensures before + after <= (MAX_WFT + 1) * x
  {
    MulMono(k, MAX_WFT, x);
  }

  lemma MulMono(a: nat, b: nat, x: nat)
    requires a <= b
    ensures a * x <= b * x
  {}

  // ---------------------------------------------------------------------------------------------
  // How long a reception can stay open
  // ---------------------------------------------------------------------------------------------

  /** `armed`: when the receiver stored a frame last; `polled`: the last N_Cr check. */
  datatype Hearing = Hearing(rx: Rx, armed: nat, polled: nat, now: nat)

  /** A received frame, a flow control retry or an N_Cr check at a time in ms. */
  datatype Heard = Heard(time: nat, act: RxAct)

  /** In order, stamped by the clock, and the N_Cr check at least every `p` ms. */
  ghost predicate InTime(h: Hearing, p: nat, e: Heard) {
    && h.now <= e.time <= h.polled + p
    && match e.act
       case Data(_, _, now, _) => now == e.time % TWO32
       case CrCheck(now) => now == e.time % TWO32
       case FcRetry(_) => true
  }

  ghost function Hear(h: Hearing, cfg: Cfg, e: Heard): Hearing
    requires h.rx.Valid()
  {
    var stored := e.act.Data? && AsmStep(h.rx.asm, cfg.blockSize, e.act.data, e.act.dlc).rearm;
    Hearing(RxStep(h.rx, cfg, e.act).rx, if stored then e.time else h.armed,
            if e.act.CrCheck? then e.time else h.polled, e.time)
  }

  ghost predicate Listening(h: Hearing, nCr: u16, p: nat) {
    && h.rx.Valid() && h.armed <= h.now && h.polled <= h.now <= h.polled + p
    && (h.rx.asm.receiving ==>
          && h.rx.timerStart == h.armed % TWO32
          && h.now <= h.armed + nCr + p
          && (h.polled > h.armed ==> h.polled < h.armed + nCr))
  }

  /** A frame either restarts the timer, or leaves it alone and does not open a reception. */
  lemma RearmOpens(rx: Rx, cfg: Cfg, data: Frame, dlc: u8, now: u32, accept: bool)
    requires rx.Valid()
    ensures var r := RxStep(rx, cfg, Data(data, dlc, now, accept)).rx;
        var o := AsmStep(rx.asm, cfg.blockSize, data, dlc);
      && r.asm == o.asm
      && r.timerStart == (if o.rearm then now else rx.timerStart)
      && (!o.rearm && r.asm.receiving ==> rx.asm.receiving)
  {}

  lemma HearStep(h: Hearing, cfg: Cfg, p: nat, e: Heard)
    requires Listening(h, cfg.nCr, p) && InTime(h, p, e) && cfg.nCr + p < TWO32
    ensures Listening(Hear(h, cfg, e), cfg.nCr, p)
    ensures e.act.CrCheck? && h.rx.asm.receiving ==> (Hear(h, cfg, e).rx.asm.receiving <==> e.time - h.armed < cfg.nCr)
  {
    if h.rx.asm.receiving { ElapsedSmall(e.time, h.armed); }
    match e.act
    case Data(data, dlc, now, accept) =>
      hide AsmStep, Elapsed;
      RearmOpens(h.rx, cfg, data, dlc, now, accept);
    case CrCheck(_) =>
    case FcRetry(_) =>
  }

  ghost predicate AllInTime(h: Hearing, cfg: Cfg, p: nat, es: seq<Heard>)
    requires h.rx.Valid()
    decreases |es|
  {
    es == [] || (InTime(h, p, es[0]) && AllInTime(Hear(h, cfg, es[0]), cfg, p, es[1..]))
  }

  ghost function HearAll(h: Hearing, cfg: Cfg, es: seq<Heard>): Hearing
    requires h.rx.Valid()
    decreases |es|
  {
    if es == [] then h else HearAll(Hear(h, cfg, es[0]), cfg, es[1..])
  }

  /**
   * If the periodic call comes at least every P ms, then whatever frames arrive, an open reception has stored a
   * frame at most N_Cr + P ago; and by `HearStep` it is given up exactly when N_Cr has passed at a check.
   */
  lemma {:induction false} ReceptionIsFresh(h: Hearing, cfg: Cfg, p: nat, es: seq<Heard>)
    requires Listening(h, cfg.nCr, p) && cfg.nCr + p < TWO32 && AllInTime(h, cfg, p, es)
    ensures Listening(HearAll(h, cfg, es), cfg.nCr, p)
    ensures var r := HearAll(h, cfg, es); r.rx.asm.receiving ==> r.now - r.armed <= cfg.nCr + p
    decreases |es|
  {
    hide Hear, InTime;
    if es != [] {
      HearStep(h, cfg, p, es[0]);
      ReceptionIsFresh(Hear(h, cfg, es[0]), cfg, p, es[1..]);
    }
  }
}
