/**
 * What the receiver may tell the application, whatever frames arrive.
 *
 * `Monitor` watches a run of the receiver half: every data field that arrived, the indices of the frames
 * the current reception was built from, and the indications. Frames, lengths, clock and driver are
 * arbitrary.
 */
module IsoTpReceiver {
  import opened Words
  import opened IsoTpModel

  /** The 12-bit length of a first frame. */
  ghost function FfLength(f: Frame): int { (f[0] % 16) as int * 256 + f[1] }

  ghost predicate InRange(h: seq<Frame>, at: seq<nat>) {
    && (forall i :: 0 <= i < |at| ==> at[i] < |h|)
    && (forall i, j :: 0 <= i < j < |at| ==> at[i] < at[j])
  }

  /** The data bytes of a first frame and the consecutive frames after it, all taken in full. */
  ghost function Payload(h: seq<Frame>, at: seq<nat>): seq<u8>
    requires InRange(h, at) && at != []
  {
    if |at| == 1 then h[at[0]][2..]
    else Payload(h, at[..|at| - 1]) + h[at[|at| - 1]][1..]
  }

  /**
   * The frames `at` of history `h` are a first frame that announces `n` bytes, and after it consecutive
   * frames numbered 1, 2, .. modulo 16.
   */
  ghost predicate InSequence(h: seq<Frame>, at: seq<nat>, n: int) {
    && InRange(h, at) && at != []
    && Pci(h[at[0]]) == 1 && FfLength(h[at[0]]) == n
    && forall i :: 1 <= i < |at| ==> Pci(h[at[i]]) == 2 && h[at[i]][0] % 16 == i % 16
  }

  lemma {:induction false} PayloadLength(h: seq<Frame>, at: seq<nat>)
    requires InRange(h, at) && at != []
    ensures |Payload(h, at)| == FF_DATA + CF_MAX_DATA * (|at| - 1)
    decreases |at|
  {
    if |at| > 1 { PayloadLength(h, at[..|at| - 1]); }
  }

  lemma {:induction false} PayloadExtends(h: seq<Frame>, f: Frame, at: seq<nat>)
    requires InRange(h, at) && at != []
    ensures InRange(h + [f], at) && Payload(h + [f], at) == Payload(h, at)
    decreases |at|
  {
    if |at| > 1 { PayloadExtends(h, f, at[..|at| - 1]); }
  }

  /** A complete message: one single frame, or a first frame with exactly ceil((n - 6) / 7) in-sequence frames. */
  ghost predicate Justified(h: seq<Frame>, at: seq<nat>, data: seq<u8>) {
    || (|at| == 1 && InRange(h, at) && Pci(h[at[0]]) == 0
        && 1 <= |data| <= SF_MAX_DATA && h[at[0]][0] % 16 == |data| && data == h[at[0]][1..1 + |data|])
    || (|data| > SF_MAX_DATA && InSequence(h, at, |data|) && |at| == 1 + CfCount(|data|)
        && data <= Payload(h, at))
  }

  /** `at`: the frames behind an Ok indication; arbitrary for an error. */
  datatype Reception = Reception(ind: Ind, at: seq<nat>)

  /** `started`: how many single frames and first frames were accepted; `at`: frames of the open reception. */
  datatype Monitor = Monitor(rx: Rx, history: seq<Frame>, at: seq<nat>, started: nat, log: seq<Reception>)

  /** A single frame or first frame the receiver takes as the begin of a message. */
  ghost predicate Begins(a: Asm, data: Frame, dlc: u8) {
    1 <= dlc <= 8 &&
    if data[0] / 16 == 0 then 1 <= data[0] % 16 <= 7 && data[0] % 16 < dlc && data[0] % 16 <= |a.buf|
    else data[0] / 16 == 1 && dlc == 8 && 8 <= FfLength(data) <= |a.buf|
  }

  /** A consecutive frame that is stored. */
  ghost predicate Continues(a: Asm, data: Frame, dlc: u8) {
    a.receiving && 1 <= dlc <= 8 && data[0] / 16 == 2 && data[0] % 16 == a.sn
        && Min(a.length - a.offset, 7) < dlc
  }

  ghost function Tag(inds: seq<Ind>, at: seq<nat>): seq<Reception> {
    seq(|inds|, i requires 0 <= i < |inds| => Reception(inds[i], at))
  }

  ghost function Watch(w: Monitor, cfg: Cfg, act: RxAct): Monitor
    requires w.rx.Valid()
  {
    var o := RxStep(w.rx, cfg, act);
    if act.Data? then
      var h := w.history + [act.data];
      var n: nat := |w.history|;
      if Begins(w.rx.asm, act.data, act.dlc) then Monitor(o.rx, h, [n], w.started + 1, w.log + Tag(o.inds, [n]))
      else if Continues(w.rx.asm, act.data, act.dlc)
          then Monitor(o.rx, h, w.at + [n], w.started, w.log + Tag(o.inds, w.at + [n]))
      else Monitor(o.rx, h, w.at, w.started, w.log + Tag(o.inds, w.at))
    else Monitor(o.rx, w.history, w.at, w.started, w.log + Tag(o.inds, w.at))
  }

  ghost function Run(w: Monitor, cfg: Cfg, acts: seq<RxAct>): (r: Monitor)
    requires w.rx.Valid()
    ensures r.rx.Valid()
    decreases |acts|
  {
    if acts == [] then w else Watch(Run(w, cfg, acts[..|acts| - 1]), cfg, acts[|acts| - 1])
  }

  ghost function Idle(buf: Buffer): Monitor { Monitor(IdleRx(buf), [], [], 0, []) }

  /** The open reception is built from in-sequence frames and the buffer holds their bytes so far. */
  ghost predicate Open(a: Asm, h: seq<Frame>, at: seq<nat>) {
    a.receiving ==>
      && a.Valid()
      && InSequence(h, at, a.length)
      && a.sn == |at| % 16
      && a.offset == FF_DATA + CF_MAX_DATA * (|at| - 1)
      && a.buf[..a.offset] == Payload(h, at)
  }

  ghost predicate LogInv(h: seq<Frame>, log: seq<Reception>) {
    forall i :: 0 <= i < |log| && log[i].ind.result == Ok ==> Justified(h, log[i].at, log[i].ind.data)
  }

  ghost predicate Inv(w: Monitor) {
    && w.rx.Valid()
    && Open(w.rx.asm, w.history, w.at)
    && LogInv(w.history, w.log)
    && w.started == |w.log| + (if w.rx.asm.receiving then 1 else 0)
  }

  lemma JustifiedExtends(h: seq<Frame>, f: Frame, at: seq<nat>, data: seq<u8>)
    requires Justified(h, at, data)
    ensures Justified(h + [f], at, data)
  {
    PayloadExtends(h, f, at);
  }

  lemma LogExtends(h: seq<Frame>, f: Frame, log: seq<Reception>)
    requires LogInv(h, log)
    ensures LogInv(h + [f], log)
  {
    forall i | 0 <= i < |log| && log[i].ind.result == Ok
      ensures Justified(h + [f], log[i].at, log[i].ind.data)
    {
      JustifiedExtends(h, f, log[i].at, log[i].ind.data);
    }
  }

  /** What the application is told when another message breaks off the open one: the bytes so far. */
  ghost function BrokenOff(a: Asm): seq<Ind>
    requires a.Valid()
  {
    if a.receiving then [Ind(a.buf[..a.offset], ErrUnexpPdu)] else []
  }

  /**
   * A first frame opens a reception at its start and calls for a continue-to-send; a single frame is one. The
   * interrupted message, if any, is reported first, as an unexpected PDU.
   */
  lemma BeginStep(a: Asm, bs: u8, h: seq<Frame>, data: Frame, dlc: u8)
    requires a.Valid() && Begins(a, data, dlc)
    ensures var o := AsmStep(a, bs, data, dlc); var n: nat := |h|;
      && Open(o.asm, h + [data], [n])
      && (forall i :: 0 <= i < |o.inds| && o.inds[i].result == Ok ==> Justified(h + [data], [n], o.inds[i].data))
      && |o.inds| == (if a.receiving then 1 else 0) + (if o.asm.receiving then 0 else 1)
    ensures var o := AsmStep(a, bs, data, dlc);
      && (o.asm.receiving <==> data[0] / 16 == 1)
      && o.inds == BrokenOff(a) + (if data[0] / 16 == 1 then [] else [Ind(data[1..1 + data[0] % 16], Ok)])
      && o.fc == (if data[0] / 16 == 1 then Some(0) else None)
      && (o.rearm <==> data[0] / 16 == 1)
      && (data[0] / 16 == 1 ==> o.asm.offset == 6 && o.asm.sn == 1 && o.asm.length == FfLength(data)
                                && o.asm.buf[..6] == data[2..] && o.asm.blockCount == 0)
  {}

  lemma SequenceExtends(h: seq<Frame>, at: seq<nat>, n: int, f: Frame)
    requires InSequence(h, at, n) && Pci(f) == 2 && f[0] % 16 == |at| % 16
    ensures var at' := at + [|h|];
      && InSequence(h + [f], at', n)
      && Payload(h + [f], at') == Payload(h, at) + f[1..]
  {
    var at': seq<nat> := at + [|h|];
    PayloadExtends(h, f, at);
    assert at'[..|at'| - 1] == at;
    forall i | 1 <= i < |at'|
      ensures Pci((h + [f])[at'[i]]) == 2 && (h + [f])[at'[i]][0] % 16 == i % 16
    {
      if i < |at| { assert at'[i] == at[i]; }
    }
  }

  lemma StaysOpen(a: Asm, b: Asm, h: seq<Frame>, at: seq<nat>, data: Frame)
    requires Open(a, h, at) && a.receiving && Pci(data) == 2 && data[0] % 16 == a.sn
    requires b.Valid() && b.receiving && b.length == a.length && b.offset == a.offset + CF_MAX_DATA
    requires b.sn == (a.sn + 1) % 16 && b.buf[..b.offset] == a.buf[..a.offset] + data[1..]
    ensures Open(b, h + [data], at + [|h|])
  {
    hide InSequence, Payload;
    SequenceExtends(h, at, a.length, data);
  }

  lemma Completes(a: Asm, h: seq<Frame>, at: seq<nat>, data: Frame, n: nat)
    requires Open(a, h, at) && a.receiving && Pci(data) == 2 && data[0] % 16 == a.sn
    requires n == a.length - a.offset <= CF_MAX_DATA
    ensures Justified(h + [data], at + [|h|], a.buf[..a.offset] + data[1..1 + n])
  {
    hide Payload;
    SequenceExtends(h, at, a.length, data);
    assert a.buf[..a.offset] + data[1..1 + n] <= Payload(h, at) + data[1..];
  }

  /** An in-sequence frame extends the open reception or completes it with exactly the announced bytes. */
  lemma ContinueStep(a: Asm, bs: u8, h: seq<Frame>, at: seq<nat>, data: Frame, dlc: u8)
    requires a.Valid() && Open(a, h, at) && Continues(a, data, dlc)
    ensures var o := AsmStep(a, bs, data, dlc); var at' := at + [|h|];
      && Open(o.asm, h + [data], at')
      && (forall i :: 0 <= i < |o.inds| && o.inds[i].result == Ok ==> Justified(h + [data], at', o.inds[i].data))
      && |o.inds| == (if o.asm.receiving then 0 else 1)
  {
    hide AsmStep, Open, Justified;
    var o := AsmStep(a, bs, data, dlc);
    StoredBytes(a, bs, data, dlc);
    var n := Min(a.length - a.offset, CF_MAX_DATA);
    if o.asm.receiving {
      assert data[1..1 + n] == data[1..];
      StaysOpen(a, o.asm, h, at, data);
    } else {
      Completes(a, h, at, data, n);
      ClosedOpen(o.asm, h + [data], at + [|h|]);
    }
  }

  lemma StoredBytes(a: Asm, bs: u8, data: Frame, dlc: u8)
    requires a.Valid() && Continues(a, data, dlc)
    ensures var o := AsmStep(a, bs, data, dlc); var n := Min(a.length - a.offset, CF_MAX_DATA);
      && o.asm.length == a.length
      && o.asm.offset == a.offset + n <= a.length
      && o.asm.sn == (a.sn + 1) % 16
      && o.asm.buf[..o.asm.offset] == a.buf[..a.offset] + data[1..1 + n]
      && (o.asm.receiving <==> o.asm.offset < a.length)
      && (o.asm.receiving ==> o.inds == [])
      && (!o.asm.receiving ==> o.inds == [Ind(o.asm.buf[..a.length], Ok)])
      && o.rearm
    ensures var o := AsmStep(a, bs, data, dlc); var count := (a.blockCount + 1) % 256;
      if !o.asm.receiving || bs == 0 then o.fc == None && o.asm.blockCount == a.blockCount
      else if count < bs then o.fc == None && o.asm.blockCount == count
      else o.fc == Some(0) && o.asm.blockCount == 0
  {}

  /**
   * Every other frame changes nothing at all, or is out of sequence and ends the open reception with that error, or
   * announces a message that does not fit: then an open reception is interrupted and an overflow is reported back.
   */
  lemma OtherStep(a: Asm, bs: u8, data: Frame, dlc: u8)
    requires a.Valid() && !Begins(a, data, dlc) && !Continues(a, data, dlc)
    ensures var o := AsmStep(a, bs, data, dlc); var closed := a.(receiving := false);
      if 1 <= dlc <= 8 && a.receiving && data[0] / 16 == 2 && data[0] % 16 != a.sn
      then o == AsmOut(closed, [Ind(a.buf[..a.offset], ErrWrongSn)], false, None)
      else if dlc == 8 && data[0] / 16 == 1 && FfLength(data) >= 8
      then FfLength(data) > |a.buf| && o == AsmOut(closed, BrokenOff(a), false, Some(2))
      else o == AsmOut(a, [], false, None)
  {}

  /** Clock and driver do not influence the reassembly. */
  lemma DataOut(rx: Rx, cfg: Cfg, data: Frame, dlc: u8, now: u32, accept: bool)
    requires rx.Valid()
    ensures var o := RxStep(rx, cfg, Data(data, dlc, now, accept)); var s := AsmStep(rx.asm, cfg.blockSize, data, dlc);
      o.rx.asm == s.asm && o.inds == s.inds
  {
    hide AsmStep;
  }

  lemma LogAppend(h: seq<Frame>, log: seq<Reception>, inds: seq<Ind>, at: seq<nat>)
    requires LogInv(h, log)
    requires forall i :: 0 <= i < |inds| && inds[i].result == Ok ==> Justified(h, at, inds[i].data)
    ensures LogInv(h, log + Tag(inds, at))
  {
    hide Justified;
  }

  lemma DataStep(w: Monitor, cfg: Cfg, data: Frame, dlc: u8, now: u32, accept: bool)
    requires Inv(w)
    ensures Inv(Watch(w, cfg, Data(data, dlc, now, accept)))
  {
    hide AsmStep, RxStep, InSequence, Payload, Justified, Open, LogInv, Begins, Continues;
    var a := w.rx.asm;
    var h := w.history;
    var n: nat := |h|;
    DataOut(w.rx, cfg, data, dlc, now, accept);
    var o := AsmStep(a, cfg.blockSize, data, dlc);
    LogExtends(h, data, w.log);
    if Begins(a, data, dlc) {
      BeginStep(a, cfg.blockSize, h, data, dlc);
      LogAppend(h + [data], w.log, o.inds, [n]);
    } else if Continues(a, data, dlc) {
      ContinuesReceives(a, data, dlc);
      ContinueStep(a, cfg.blockSize, h, w.at, data, dlc);
      LogAppend(h + [data], w.log, o.inds, w.at + [n]);
    } else {
      OtherStep(a, cfg.blockSize, data, dlc);
      LogAppend(h + [data], w.log, o.inds, w.at);
      OpenExtends(a, h, data, w.at);
      ClosedOpen(a.(receiving := false), h + [data], w.at);
    }
  }

  lemma ContinuesReceives(a: Asm, data: Frame, dlc: u8)
    requires Continues(a, data, dlc)
    ensures a.receiving
  {}

  lemma ClosedOpen(a: Asm, h: seq<Frame>, at: seq<nat>)
    requires !a.receiving
    ensures Open(a, h, at)
  {}

  lemma {:induction false} InvStep(w: Monitor, cfg: Cfg, act: RxAct)
    requires Inv(w)
    ensures Inv(Watch(w, cfg, act))
  {
    match act
    case Data(data, dlc, now, accept) => DataStep(w, cfg, data, dlc, now, accept);
    case FcRetry(accept) =>
    case CrCheck(now) =>
  }

  lemma OpenExtends(a: Asm, h: seq<Frame>, f: Frame, at: seq<nat>)
    requires a.Valid() && Open(a, h, at)
    ensures Open(a, h + [f], at)
  {
    if a.receiving { PayloadExtends(h, f, at); }
  }

  lemma {:induction false} RunInv(w: Monitor, cfg: Cfg, acts: seq<RxAct>)
    requires Inv(w)
    ensures Inv(Run(w, cfg, acts))
    decreases |acts|
  {
    if acts != [] {
      RunInv(w, cfg, acts[..|acts| - 1]);
      InvStep(Run(w, cfg, acts[..|acts| - 1]), cfg, acts[|acts| - 1]);
    }
  }

  /**
   * For every sequence of received frames and timer checks: each Ok indication is the reassembly of one
   * single frame, or of one first frame and exactly its in-sequence consecutive frames; and every accepted
   * single or first frame leads to exactly one indication, or is the one reception still open.
   */
  lemma IndicationsAreReassemblies(buf: Buffer, cfg: Cfg, acts: seq<RxAct>)
    ensures var w := Run(Idle(buf), cfg, acts);
      && (forall i :: 0 <= i < |w.log| && w.log[i].ind.result == Ok
            ==> Justified(w.history, w.log[i].at, w.log[i].ind.data))
      && w.started == |w.log| + (if w.rx.asm.receiving then 1 else 0)
      && (w.rx.asm.receiving ==> FF_DATA <= w.rx.asm.offset < w.rx.asm.length <= |buf|)
  {
    RunInv(Idle(buf), cfg, acts);
    BufferKept(Idle(buf), cfg, acts);
  }

  lemma {:induction false} BufferKept(w: Monitor, cfg: Cfg, acts: seq<RxAct>)
    requires w.rx.Valid()
    ensures |Run(w, cfg, acts).rx.asm.buf| == |w.rx.asm.buf|
    decreases |acts|
  {
    if acts != [] { BufferKept(w, cfg, acts[..|acts| - 1]); }
  }
}
