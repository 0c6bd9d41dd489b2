/**
 * common/isotp/isotp.c as written: one object whose fields and buffers the C functions update in place.
 *
 * The object keeps a ghost record of the atomic actions it has performed. `Valid` says that its fields,
 * its buffers and everything it sent or reported are exactly what those actions produce from the state
 * after IsoTp_Init; so whatever is proved about all runs of the actions holds for every link.
 */
module IsoTpLink {
  import opened Words
  import opened IsoTpModel

  /** The injected CAN driver and clock: any answer, at any time. */
  class Port {
    constructor () {}

    method SendFrame(frame: Frame) returns (ok: bool) { ok := *; }

    method GetTimeMs() returns (t: u32) { t := *; }
  }

  // ---------------------------------------------------------------------------------------------
  // Actions of a whole link
  // ---------------------------------------------------------------------------------------------

  /** The sender half with everything it put on the bus and confirmed. */
  datatype TxSide = TxSide(tx: Tx, sent: seq<Frame>, confs: seq<Result>)

  datatype RxSide = RxSide(rx: Rx, sent: seq<Frame>, inds: seq<Ind>)

  ghost function TxDo(s: TxSide, nBs: u16, act: TxAct): (r: TxSide)
    requires s.tx.Valid()
    ensures r.tx.Valid()
  {
    var o := TxStep(s.tx, nBs, act);
    TxSide(o.tx, s.sent + o.sent, s.confs + o.confs)
  }

  ghost function TxAll(s: TxSide, nBs: u16, acts: seq<TxAct>): (r: TxSide)
    requires s.tx.Valid()
    ensures r.tx.Valid()
    decreases |acts|
  {
    if acts == [] then s else TxDo(TxAll(s, nBs, acts[..|acts| - 1]), nBs, acts[|acts| - 1])
  }

  ghost function RxDo(s: RxSide, cfg: Cfg, act: RxAct): (r: RxSide)
    requires s.rx.Valid()
    ensures r.rx.Valid()
  {
    var o := RxStep(s.rx, cfg, act);
    RxSide(o.rx, s.sent + o.sent, s.inds + o.inds)
  }

  ghost function RxAll(s: RxSide, cfg: Cfg, acts: seq<RxAct>): (r: RxSide)
    requires s.rx.Valid()
    ensures r.rx.Valid()
    decreases |acts|
  {
    if acts == [] then s else RxDo(RxAll(s, cfg, acts[..|acts| - 1]), cfg, acts[|acts| - 1])
  }

  lemma {:induction false} TxAllAppend(s: TxSide, nBs: u16, a: seq<TxAct>, b: seq<TxAct>)
    requires s.tx.Valid()
    ensures TxAll(s, nBs, a + b) == TxAll(TxAll(s, nBs, a), nBs, b)
    decreases |b|
  {
    hide TxDo;
    if b == [] { assert a + b == a; }
    else {
      TxAllAppend(s, nBs, a, b[..|b| - 1]);
      assert (a + b)[..|a + b| - 1] == a + b[..|b| - 1];
    }
  }

  lemma RxAllMore(s: RxSide, cfg: Cfg, a: seq<RxAct>, act: RxAct)
    requires s.rx.Valid()
    ensures RxAll(s, cfg, a + [act]) == RxDo(RxAll(s, cfg, a), cfg, act)
  {
    hide RxDo;
    assert (a + [act])[..|a|] == a;
  }

  /**
   * The loop in TxSendConsecutiveFrames: rounds that each send a frame, until the sender leaves SEND_CF or a
   * last round is stopped by STmin or a refusing driver.
   */
  ghost predicate CfLoop(tx: Tx, nBs: u16, acts: seq<TxAct>)
    requires tx.Valid()
    decreases |acts|
  {
    if tx.state != SendCf then acts == []
    else
      && acts != [] && acts[0].Cf?
      && if CfBlocked(tx, acts[0].check, acts[0].accept) then |acts| == 1
         else CfLoop(TxStep(tx, nBs, acts[0]).tx, nBs, acts[1..])
  }

  // ---------------------------------------------------------------------------------------------
  // The object
  // ---------------------------------------------------------------------------------------------

  method CopyIn(dst: array<u8>, at: nat, bytes: seq<u8>)
    requires at + |bytes| <= dst.Length
    modifies dst
    ensures dst[..] == Overwrite(old(dst[..]), at, bytes)
  {
    var i := 0;
    while i < |bytes|
      invariant 0 <= i <= |bytes|
      invariant forall k :: 0 <= k < dst.Length ==> dst[k] == if at <= k < at + i then bytes[k - at] else old(dst[k])
    {
      dst[at + i] := bytes[i];
      i := i + 1;
    }
  }

  /** InitFrame, then the first byte and the payload that follows it. */
  method InitFrame(first: u8, bytes: seq<u8>) returns (frame: array<u8>)
    requires |bytes| < CAN_DL
    ensures fresh(frame) && frame.Length == CAN_DL && frame[..] == Pad([first] + bytes)
  {
    frame := new u8[CAN_DL](_ => PADDING);
    frame[0] := first;
    CopyIn(frame, 1, bytes);
  }

  class Link {
    const port: Port
    const cfg: Cfg
    const txBuffer: array<u8>
    const rxBuffer: array<u8>

    var txState: TxState
    var txLength: u16
    var txOffset: u16
    var txSeq: u8
    var txBlockSize: u8
    var txBlockCount: u8
    var txStMinMs: u32
    var txTimerStart: u32
    var txLastCfTime: u32
    var txWaitCount: u8

    var rxReceiving: bool
    var rxLength: u16
    var rxOffset: u16
    var rxSeq: u8
    var rxBlockCount: u8
    var rxTimerStart: u32
    var rxFcPending: bool
    var rxFcStatus: u8

    /** Frames the driver took from either half, and the callbacks made. */
    ghost var txSent: seq<Frame>
    ghost var rxSent: seq<Frame>
    ghost var confs: seq<Result>
    ghost var inds: seq<Ind>

    /** The actions performed since IsoTp_Init, by half, and the buffers at that time. */
    ghost var txActs: seq<TxAct>
    ghost var rxActs: seq<RxAct>
    ghost const txBuf0: Buffer
    ghost const rxBuf0: Buffer

    ghost function TxOf(): Tx
      reads this`txState, this`txLength, this`txOffset, this`txSeq, this`txBlockSize, this`txBlockCount, this`txStMinMs,
            this`txTimerStart, this`txLastCfTime, this`txWaitCount, txBuffer
    {
      Tx(txState, txBuffer[..], txLength, txOffset, txSeq, txBlockSize, txBlockCount,
         txStMinMs, txTimerStart, txLastCfTime, txWaitCount)
    }

    ghost function AsmOf(): Asm
      reads this`rxReceiving, this`rxLength, this`rxOffset, this`rxSeq, this`rxBlockCount, rxBuffer
    {
      Asm(rxReceiving, rxBuffer[..], rxLength, rxOffset, rxSeq, rxBlockCount)
    }

    ghost function RxOf(): Rx
      reads this`rxReceiving, this`rxLength, this`rxOffset, this`rxSeq, this`rxBlockCount, this`rxTimerStart,
            this`rxFcPending, this`rxFcStatus, rxBuffer
    {
      Rx(AsmOf(), rxTimerStart, rxFcPending, rxFcStatus)
    }

    ghost function TxNow(): TxSide
      reads this`txState, this`txLength, this`txOffset, this`txSeq, this`txBlockSize, this`txBlockCount, this`txStMinMs,
            this`txTimerStart, this`txLastCfTime, this`txWaitCount, this`txSent, this`confs, txBuffer
    {
      TxSide(TxOf(), txSent, confs)
    }

    ghost function RxNow(): RxSide
      reads this`rxReceiving, this`rxLength, this`rxOffset, this`rxSeq, this`rxBlockCount, this`rxTimerStart,
            this`rxFcPending, this`rxFcStatus, this`rxSent, this`inds, rxBuffer
    {
      RxSide(RxOf(), rxSent, inds)
    }

    ghost predicate TxValid()
      reads this`txState, this`txLength, this`txOffset, this`txSeq, this`txBlockSize, this`txBlockCount, this`txStMinMs,
            this`txTimerStart, this`txLastCfTime, this`txWaitCount, this`txSent, this`confs, this`txActs, txBuffer
    {
      TxOf().Valid() && TxNow() == TxAll(TxSide(IdleTx(txBuf0), [], []), cfg.nBs, txActs)
    }

    ghost predicate RxValid()
      reads this`rxReceiving, this`rxLength, this`rxOffset, this`rxSeq, this`rxBlockCount, this`rxTimerStart,
            this`rxFcPending, this`rxFcStatus, this`rxSent, this`inds, this`rxActs, rxBuffer
    {
      RxOf().Valid() && RxNow() == RxAll(RxSide(IdleRx(rxBuf0), [], []), cfg, rxActs)
    }

    ghost predicate Valid()
      reads this, txBuffer, rxBuffer
    {
      txBuffer != rxBuffer && TxValid() && RxValid()
    }

    ghost function Snapshot(): Snap
      reads this, txBuffer, rxBuffer
    {
      Snap(TxNow(), RxNow(), txActs, rxActs)
    }

    /** IsoTp_Init: zero timeouts mean the defaults; all state is cleared, the buffers stay. */
    constructor (port: Port, txBuffer: array<u8>, rxBuffer: array<u8>, blockSize: u8, stMin: u8, nBs: u16, nCr: u16)
      requires txBuffer != rxBuffer && txBuffer.Length < TWO16 && rxBuffer.Length < TWO16
      ensures Valid()
      ensures this.port == port && this.txBuffer == txBuffer && this.rxBuffer == rxBuffer
      ensures cfg == Cfg(blockSize, stMin, if nBs == 0 then 1000 else nBs, if nCr == 0 then 1000 else nCr)
      ensures TxNow() == TxSide(IdleTx(txBuffer[..]), [], []) && RxNow() == RxSide(IdleRx(rxBuffer[..]), [], [])
    {
      this.port := port;
      this.cfg := Cfg(blockSize, stMin, if nBs == 0 then DEFAULT_N_BS_MS else nBs,
                      if nCr == 0 then DEFAULT_N_CR_MS else nCr);
      this.txBuffer, this.rxBuffer := txBuffer, rxBuffer;
      txBuf0, rxBuf0 := txBuffer[..], rxBuffer[..];
      txState, txLength, txOffset, txSeq := TxIdle, 0, 0, 0;
      txBlockSize, txBlockCount, txStMinMs := 0, 0, 0;
      txTimerStart, txLastCfTime, txWaitCount := 0, 0, 0;
      rxReceiving, rxLength, rxOffset, rxSeq := false, 0, 0, 0;
      rxBlockCount, rxTimerStart, rxFcPending, rxFcStatus := 0, 0, false, 0;
      txSent, rxSent, confs, inds, txActs, rxActs := [], [], [], [], [], [];
    }

    /** TxFinish */
    method TxFinish(result: Result)
      modifies this`txState, this`confs
      ensures txState == TxIdle && confs == old(confs) + [result]
    {
      txState := TxIdle;
      confs := confs + [result];
    }

    /** SendFrame for the sender half. */
    method TxSend(frame: array<u8>) returns (ok: bool)
      requires frame.Length == CAN_DL
      modifies this`txSent
      ensures txSent == old(txSent) + (if ok then [frame[..]] else [])
    {
      ok := port.SendFrame(frame[..]);
      if ok { txSent := txSent + [frame[..]]; }
    }

    /** The bytes of the single or first frame. */
    method FirstFrameBytes() returns (frame: array<u8>)
      requires TxOf().Valid() && txState == SendFirst
      ensures fresh(frame) && frame.Length == CAN_DL
      ensures [frame[..]] == TxFirst(TxOf(), true, 0).sent
    {
      hide TxFirst;
      FirstBytes(TxOf());
      if txLength <= SF_MAX_DATA {
        frame := InitFrame(txLength, txBuffer[..txLength]);
      } else {
        frame := new u8[CAN_DL](_ => PADDING);
        frame[0] := 0x10 + txLength / 256;
        frame[1] := txLength % 256;
        CopyIn(frame, 2, txBuffer[..FF_DATA]);
        assert frame[..] == [0x10 + txLength / 256, txLength % 256] + txBuffer[..FF_DATA];
      }
    }

    /** What TxSendFirst does once the driver took the frame. */
    method FirstAccepted() returns (ghost after: u32)
      requires TxOf().Valid() && txState == SendFirst
      modifies this`txState, this`txOffset, this`txSeq, this`txWaitCount, this`txTimerStart, this`confs
      ensures var o := TxFirst(old(TxOf()), true, after); TxOf() == o.tx && confs == old(confs) + o.confs
    {
      hide Pad;
      after := 0;
      if txLength <= SF_MAX_DATA {
        TxFinish(Ok);
      } else {
        txOffset := FF_DATA;
        txSeq := 1;
        txWaitCount := 0;
        txState := WaitFc;
        txTimerStart := port.GetTimeMs();
        after := txTimerStart;
      }
    }

    /** TxSendFirst */
    method TxSendFirst() returns (ok: bool, ghost after: u32)
      requires TxOf().Valid() && txState == SendFirst
      modifies this`txState, this`txOffset, this`txSeq, this`txWaitCount, this`txTimerStart, this`txSent, this`confs
      ensures var o := TxFirst(old(TxOf()), ok, after);
        TxNow() == TxSide(o.tx, old(txSent) + o.sent, old(confs) + o.confs)
    {
      hide TxFirst;
      ghost var tx := TxOf();
      after := 0;
      var frame := FirstFrameBytes();
      ok := TxSend(frame);
      if ok { after := FirstAccepted(); }
      TxFirstCases(tx, after);
    }

    /** The bytes of the next consecutive frame. */
    method CfBytes(chunk: int) returns (frame: array<u8>)
      requires TxOf().Valid() && txState == SendCf && chunk == Chunk(TxOf())
      ensures fresh(frame) && frame.Length == CAN_DL
      ensures frame[..] == Pad([0x20 + txSeq] + txBuffer[txOffset..txOffset + chunk])
    {
      frame := InitFrame(0x20 + txSeq, txBuffer[txOffset..txOffset + chunk]);
    }

    /** Block accounting after an accepted consecutive frame, at the already advanced position. */
    method TxAfterCf() returns (ghost block: u32)
      modifies this`txState, this`txBlockCount, this`txTimerStart, this`confs
      ensures TxOf() == AfterCf(old(TxOf()), block)
      ensures confs == old(confs) + (if old(txOffset) >= txLength then [Ok] else [])
    {
      block := 0;
      if txOffset >= txLength {
        TxFinish(Ok);
      } else if txBlockSize != 0 {
        txBlockCount := (txBlockCount + 1) % TWO8;
        if txBlockCount >= txBlockSize {
          txState := WaitFc;
          txTimerStart := port.GetTimeMs();
          block := txTimerStart;
        }
      }
    }

    /** What a round of the loop does once the driver took the frame. */
    method CfAccepted(chunk: int) returns (ghost record: u32, ghost block: u32)
      requires TxOf().Valid() && txState == SendCf && chunk == Chunk(TxOf())
      modifies this`txState, this`txOffset, this`txSeq, this`txBlockCount, this`txTimerStart, this`txLastCfTime,
          this`confs
      ensures TxOf() == AfterCf(Advance(old(TxOf()), record), block)
      ensures confs == old(confs) + (if TxOf().Busy() then [] else [Ok])
    {
      hide AfterCf;
      ghost var tx := TxOf();
      txOffset := txOffset + chunk;
      txSeq := (txSeq + 1) % 16;
      txLastCfTime := port.GetTimeMs();
      record := txLastCfTime;
      assert TxOf() == Advance(tx, record);
      block := TxAfterCf();
      AfterCfBusy(Advance(tx, record), block);
    }

    /** One round of the loop in TxSendConsecutiveFrames. */
    method TxSendOne() returns (keepSending: bool, ghost act: TxAct)
      requires TxOf().Valid() && txState == SendCf
      modifies this`txState, this`txOffset, this`txSeq, this`txBlockCount, this`txTimerStart, this`txLastCfTime,
          this`txSent, this`confs
      ensures act.Cf? && TxNow() == TxDo(old(TxNow()), cfg.nBs, act)
      ensures keepSending == !CfBlocked(old(TxOf()), act.check, act.accept)
      ensures old(TxNow()).tx.Valid() && (keepSending ==> txOffset > old(txOffset) && txOffset <= txLength)
    {
      hide Pad, AfterCf, Advance, Tx.Valid, TxStep;
      ghost var tx := TxOf();
      TxCfCases(tx, cfg.nBs, 0, 0, 0);
      var chunk := Min(txLength - txOffset, CF_MAX_DATA);
      var check: u32 := 0;
      var wait := false;
      if txStMinMs > 0 {
        check := port.GetTimeMs();
        wait := Elapsed(check, txLastCfTime) <= txStMinMs;
      }
      keepSending := false;
      ghost var record, block: u32 := 0, 0;
      if !wait {
        var frame := CfBytes(chunk);
        keepSending := TxSend(frame);
        if keepSending { record, block := CfAccepted(chunk); }
      }
      act := Cf(check, keepSending, record, block);
      TxCfCases(tx, cfg.nBs, check, record, block);
    }

    /** FC.CTS: load the block parameters; the first consecutive frame is eligible at once. */
    method TxContinue(data: Frame, t: u32)
      requires TxOf().Valid() && txState == WaitFc && data[0] % 16 == FC_CTS
      modifies this`txState, this`txBlockSize, this`txBlockCount, this`txWaitCount, this`txStMinMs, this`txLastCfTime
      ensures TxOf() == TxFc(old(TxOf()), data, 3, t).tx
      ensures txState == SendCf && txBlockSize == data[1] && txBlockCount == 0 && txWaitCount == 0
    {
      txBlockSize := data[1];
      txBlockCount := 0;
      txWaitCount := 0;
      txStMinMs := DecodeStMin(data[2]);
      txLastCfTime := Elapsed(t, txStMinMs + 1);
      txState := SendCf;
    }

    /** FC.WAIT, FC.OVFLW and reserved flow status. */
    method TxHold(data: Frame, t: u32)
      requires TxOf().Valid() && txState == WaitFc && data[0] % 16 != FC_CTS
      modifies this`txState, this`txWaitCount, this`txTimerStart, this`confs
      ensures var o := TxFc(old(TxOf()), data, 3, t); TxOf() == o.tx && confs == old(confs) + o.confs
      ensures if data[0] % 16 == 1 && old(txWaitCount) < 10
        then txState == WaitFc && txWaitCount == old(txWaitCount) + 1 && txTimerStart == t && confs == old(confs)
        else txState == TxIdle
             && confs == old(confs) + [if data[0] % 16 == 1 then ErrWftOvrn
                                       else if data[0] % 16 == 2 then ErrOverflow else ErrInvalidFs]
    {
      var status := data[0] % 16;
      if status == FC_WAIT {
        txWaitCount := (txWaitCount + 1) % TWO8;
        if txWaitCount > MAX_WFT { TxFinish(ErrWftOvrn); } else { txTimerStart := t; }
      } else {
        TxFinish(if status == FC_OVFLW then ErrOverflow else ErrInvalidFs);
      }
    }

    /** The flow status part of TxOnFlowControl. @return true for an accepted continue-to-send */
    method TxFlowStatus(data: Frame, dlc: u8) returns (cts: bool, ghost now: u32)
      requires TxOf().Valid()
      modifies this`txState, this`txBlockSize, this`txBlockCount, this`txWaitCount, this`txStMinMs,
          this`txTimerStart, this`txLastCfTime, this`confs
      ensures TxNow() == TxDo(old(TxNow()), cfg.nBs, Fc(data, dlc, now))
      ensures cts <==> old(txState) == WaitFc && dlc >= 3 && data[0] % 16 == 0
    {
      hide TxFc, Tx.Valid;
      ghost var tx := TxOf();
      cts := false;
      var t := port.GetTimeMs();
      now := t;
      TxFcCases(tx, data, dlc, t);
      assert txSent + [] == txSent && confs + [] == confs;
      if txState != WaitFc || dlc < 3 { return; }
      cts := data[0] % 16 == FC_CTS;
      if cts { TxContinue(data, t); } else { TxHold(data, t); }
    }

    /** TxSendConsecutiveFrames */
    method TxSendConsecutiveFrames() returns (ghost acts: seq<TxAct>)
      requires TxOf().Valid()
      modifies this`txState, this`txOffset, this`txSeq, this`txBlockCount, this`txTimerStart, this`txLastCfTime,
          this`txSent, this`confs
      ensures TxNow() == TxAll(old(TxNow()), cfg.nBs, acts)
      ensures CfLoop(old(TxOf()), cfg.nBs, acts)
    {
      hide TxStep, Tx.Valid;
      acts := [];
      ghost var start := TxNow();
      var keepSending := true;
      while keepSending && txState == SendCf
        invariant start.tx.Valid() && TxOf().Valid()
        invariant TxNow() == TxAll(start, cfg.nBs, acts)
        invariant if keepSending then CfRounds(start.tx, cfg.nBs, acts) else CfLoop(start.tx, cfg.nBs, acts)
        invariant keepSending ==> TxOf() == TxAll(start, cfg.nBs, acts).tx
        decreases keepSending, if txOffset <= txLength then txLength - txOffset else 0
      {
        ghost var before := TxNow();
        ghost var act;
        keepSending, act := TxSendOne();
        assert (acts + [act])[..|acts|] == acts;
        RoundAppend(start, cfg.nBs, acts, act);
        acts := acts + [act];
      }
      if keepSending { RoundsEnd(start, cfg.nBs, acts); }
    }

    /** TxOnFlowControl */
    method TxOnFlowControl(data: Frame, dlc: u8) returns (ghost acts: seq<TxAct>)
      requires TxOf().Valid()
      modifies this`txState, this`txOffset, this`txSeq, this`txBlockSize, this`txBlockCount, this`txWaitCount,
               this`txStMinMs, this`txTimerStart, this`txLastCfTime, this`txSent, this`confs
      ensures TxNow() == TxAll(old(TxNow()), cfg.nBs, acts)
      ensures FcCall(old(TxOf()), cfg.nBs, data, dlc, acts)
    {
      hide TxFc, CfLoop, Tx.Valid;
      ghost var start := TxNow();
      ghost var now;
      var cts;
      cts, now := TxFlowStatus(data, dlc);
      ghost var act := Fc(data, dlc, now);
      SingleAct(start, cfg.nBs, act);
      acts := [act];
      if cts {
        ghost var cfs := TxSendConsecutiveFrames();
        TxAllAppend(start, cfg.nBs, [act], cfs);
        acts := [act] + cfs;
        assert acts[1..] == cfs;
      }
    }

    // -------------------------------------------------------------------------------------------
    // Receiver half
    // -------------------------------------------------------------------------------------------

    /** RxFinish */
    method RxFinish(result: Result)
      requires AsmOf().Valid() && (result != Ok ==> rxReceiving) && (result == Ok ==> rxLength <= rxBuffer.Length)
      modifies this`rxReceiving, this`inds
      ensures !rxReceiving
      ensures inds == old(inds) + [Ind(rxBuffer[..if result == Ok then rxLength else rxOffset], result)]
    {
      var length := if result == Ok then rxLength else rxOffset;
      rxReceiving := false;
      inds := inds + [Ind(rxBuffer[..length], result)];
    }

    /** RxSendFlowControl */
    method RxSendFlowControl(status: u8) returns (ghost accept: bool)
      requires status in {FC_CTS, FC_OVFLW} && RxOf().Valid()
      modifies this`rxFcPending, this`rxFcStatus, this`rxSent
      ensures var o := SendFc(old(RxOf()), cfg, status, accept, []); RxOf() == o.rx && rxSent == old(rxSent) + o.sent
    {
      var frame := new u8[CAN_DL](_ => PADDING);
      frame[0] := 0x30 + status;
      frame[1] := cfg.blockSize;
      frame[2] := cfg.stMin;
      assert frame[..] == FcFrame(status, cfg.blockSize, cfg.stMin);
      var ok := port.SendFrame(frame[..]);
      if ok {
        rxFcPending := false;
        rxSent := rxSent + [frame[..]];
      } else {
        rxFcPending := true;
        rxFcStatus := status;
      }
      accept := ok;
    }

    /** RxOnSingleFrame */
    method RxOnSingleFrame(data: Frame, dlc: u8)
      requires AsmOf().Valid() && 1 <= dlc <= CAN_DL
      modifies this`rxReceiving, this`rxLength, this`inds, rxBuffer
      ensures var o := OnSingleFrame(old(AsmOf()), data, dlc); AsmOf() == o.asm && inds == old(inds) + o.inds
    {
      var length := data[0] % 16;
      if length == 0 || length > SF_MAX_DATA || length > dlc - 1 || length > rxBuffer.Length { return; }
      if rxReceiving { RxFinish(ErrUnexpPdu); }
      RxWhole(data[1..1 + length]);
    }

    /** The stores of RxOnSingleFrame for a message that fits. */
    method RxWhole(bytes: seq<u8>)
      requires AsmOf().Valid() && !rxReceiving && |bytes| <= rxBuffer.Length
      modifies this`rxReceiving, this`rxLength, this`inds, rxBuffer
      ensures AsmOf() == old(AsmOf()).(buf := Overwrite(old(rxBuffer[..]), 0, bytes), length := |bytes|)
      ensures inds == old(inds) + [Ind(bytes, Ok)]
    {
      CopyIn(rxBuffer, 0, bytes);
      rxLength := |bytes|;
      assert rxBuffer[..|bytes|] == bytes;
      RxFinish(Ok);
    }

    /** The stores of RxOnFirstFrame for a message that fits. */
    method RxOpen(data: Frame, length: u16)
      requires AsmOf().Valid() && SF_MAX_DATA < length <= rxBuffer.Length
      modifies this`rxReceiving, this`rxLength, this`rxOffset, this`rxSeq, this`rxBlockCount, rxBuffer
      ensures AsmOf() == Asm(true, Overwrite(old(rxBuffer[..]), 0, data[2..]), length, FF_DATA, 1, 0)
    {
      CopyIn(rxBuffer, 0, data[2..]);
      rxLength := length;
      rxOffset := FF_DATA;
      rxSeq := 1;
      rxBlockCount := 0;
      rxReceiving := true;
    }

    /** RxOnFirstFrame up to the flow control frame it calls for. */
    method RxTakeFirst(data: Frame, dlc: u8) returns (fc: Option<u8>, rearm: bool)
      requires AsmOf().Valid() && 1 <= dlc <= CAN_DL
      modifies this`rxReceiving, this`rxLength, this`rxOffset, this`rxSeq, this`rxBlockCount, this`inds, rxBuffer
      ensures var o := OnFirstFrame(old(AsmOf()), data, dlc);
        AsmOf() == o.asm && inds == old(inds) + o.inds && fc == o.fc && rearm == o.rearm
    {
      var length: int := (data[0] % 16) as int * 256 + data[1];
      if dlc < CAN_DL || length <= SF_MAX_DATA { return None, false; }
      if rxReceiving { RxFinish(ErrUnexpPdu); }
      if length > rxBuffer.Length { return Some(FC_OVFLW), false; }
      RxOpen(data, length);
      return Some(FC_CTS), true;
    }

    /** RxOnConsecutiveFrame up to the flow control frame it calls for. */
    method RxTakeConsecutive(data: Frame, dlc: u8) returns (fc: Option<u8>, rearm: bool)
      requires AsmOf().Valid() && 1 <= dlc <= CAN_DL
      modifies this`rxReceiving, this`rxOffset, this`rxSeq, this`rxBlockCount, this`inds, rxBuffer
      ensures var o := OnConsecutiveFrame(old(AsmOf()), cfg.blockSize, data, dlc);
        AsmOf() == o.asm && inds == old(inds) + o.inds && fc == o.fc && rearm == o.rearm
    {
      if !rxReceiving { return None, false; }
      if data[0] % 16 != rxSeq {
        RxFinish(ErrWrongSn);
        return None, false;
      }
      var chunk := Min(rxLength - rxOffset, CF_MAX_DATA);
      if chunk > dlc - 1 { return None, false; }
      CopyIn(rxBuffer, rxOffset, data[1..1 + chunk]);
      rxOffset := rxOffset + chunk;
      rxSeq := (rxSeq + 1) % 16;
      fc := RxBlockEnd();
      return fc, true;
    }

    /** What RxOnConsecutiveFrame does after storing a frame: finish, or count the block. */
    method RxBlockEnd() returns (fc: Option<u8>)
      requires rxReceiving && FF_DATA <= rxOffset <= rxLength <= rxBuffer.Length
      modifies this`rxReceiving, this`rxBlockCount, this`inds
      ensures var a := old(AsmOf()); var count := (a.blockCount + 1) % TWO8;
        if a.offset >= a.length
        then fc == None && AsmOf() == a.(receiving := false) && inds == old(inds) + [Ind(a.buf[..a.length], Ok)]
        else if cfg.blockSize == 0 then fc == None && AsmOf() == a && inds == old(inds)
        else if count >= cfg.blockSize then fc == Some(FC_CTS) && AsmOf() == a.(blockCount := 0) && inds == old(inds)
        else fc == None && AsmOf() == a.(blockCount := count) && inds == old(inds)
    {
      fc := None;
      if rxOffset >= rxLength {
        rxReceiving := false;
        inds := inds + [Ind(rxBuffer[..rxLength], Ok)];
      } else if cfg.blockSize != 0 {
        rxBlockCount := (rxBlockCount + 1) % TWO8;
        if rxBlockCount >= cfg.blockSize {
          rxBlockCount := 0;
          fc := Some(FC_CTS);
        }
      }
    }

    /** The data cases of IsoTp_RxFrame, up to timer and flow control. */
    method RxReassemble(data: Frame, dlc: u8) returns (fc: Option<u8>, rearm: bool)
      requires AsmOf().Valid() && 1 <= dlc <= CAN_DL
      modifies this`rxReceiving, this`rxLength, this`rxOffset, this`rxSeq, this`rxBlockCount, this`inds, rxBuffer
      ensures var o := AsmStep(old(AsmOf()), cfg.blockSize, data, dlc);
        o.asm.Valid() && AsmOf() == o.asm && inds == old(inds) + o.inds && fc == o.fc && rearm == o.rearm
    {
      hide OnSingleFrame, OnFirstFrame, OnConsecutiveFrame, Asm.Valid;
      fc, rearm := None, false;
      ghost var a := AsmOf();
      SfOnly(a, data, dlc);
      if Pci(data) == 0 { RxOnSingleFrame(data, dlc); }
      else if Pci(data) == 1 { fc, rearm := RxTakeFirst(data, dlc); }
      else if Pci(data) == 2 { fc, rearm := RxTakeConsecutive(data, dlc); }
      else { assert inds + [] == inds; }
    }

    /** The SF, FF and CF cases of IsoTp_RxFrame. */
    method RxOnData(data: Frame, dlc: u8) returns (ghost now: u32, ghost accept: bool)
      requires RxOf().Valid() && 1 <= dlc <= CAN_DL
      modifies this`rxReceiving, this`rxLength, this`rxOffset, this`rxSeq, this`rxBlockCount, this`rxTimerStart,
               this`rxFcPending, this`rxFcStatus, this`rxSent, this`inds, rxBuffer
      ensures RxNow() == RxDo(old(RxNow()), cfg, Data(data, dlc, now, accept))
    {
      hide AsmStep, SendFc, Asm.Valid;
      now, accept := 0, false;
      ghost var before := RxNow();
      ghost var o := AsmStep(before.rx.asm, cfg.blockSize, data, dlc);
      var fc, rearm := RxReassemble(data, dlc);
      if rearm {
        rxTimerStart := port.GetTimeMs();
        now := rxTimerStart;
      }
      ghost var next := before.rx.(asm := o.asm, timerStart := if o.rearm then now else before.rx.timerStart);
      assert RxOf() == next;
      if fc.Some? {
        accept := RxSendFlowControl(fc.value);
        SendFcInds(next, cfg, fc.value, accept, o.inds);
      }
    }

    // -------------------------------------------------------------------------------------------
    // Public API
    // -------------------------------------------------------------------------------------------

    /** Appends performed actions of the sender half to the record. */
    ghost method RecordTx(before: TxSide, acts: seq<TxAct>)
      requires before.tx.Valid() && before == TxAll(TxSide(IdleTx(txBuf0), [], []), cfg.nBs, txActs)
      requires TxNow() == TxAll(before, cfg.nBs, acts)
      modifies this`txActs
      ensures TxValid() && txActs == old(txActs) + acts
    {
      hide TxDo, Tx.Valid;
      TxAllAppend(TxSide(IdleTx(txBuf0), [], []), cfg.nBs, txActs, acts);
      txActs := txActs + acts;
    }

    /** Appends a performed action of the receiver half to the record. */
    ghost method RecordRx(before: RxSide, act: RxAct)
      requires before.rx.Valid() && before == RxAll(RxSide(IdleRx(rxBuf0), [], []), cfg, rxActs)
      requires RxNow() == RxDo(before, cfg, act)
      modifies this`rxActs
      ensures RxValid() && rxActs == old(rxActs) + [act]
    {
      hide RxDo, Rx.Valid;
      RxAllMore(RxSide(IdleRx(rxBuf0), [], []), cfg, rxActs, act);
      rxActs := rxActs + [act];
    }

    /** IsoTp_Transmit */
    method Transmit(data: seq<u8>) returns (r: Result, ghost act: TxAct)
      requires Valid() && |data| < TWO16
      modifies this`txState, this`txLength, this`txOffset, this`txSeq, this`txWaitCount, this`txTimerStart,
               this`txSent, this`confs, this`txActs, txBuffer
      ensures Valid() && RxNow() == old(RxNow())
      ensures r == TransmitResult(old(TxOf()), data)
      ensures r == if |data| == 0 || |data| > 4095 || |data| > txBuffer.Length then ErrParam
                   else if old(txState) != TxIdle then ErrBusy else Ok
      ensures r != Ok ==> TxNow() == old(TxNow()) && txActs == old(txActs)
      ensures r == Ok ==> act.Transmit? && act.msg == data && txActs == old(txActs) + [act]
                          && TxNow() == TxDo(old(TxNow()), cfg.nBs, act)
    {
      hide TxAll, TxDo, Tx.Valid, RxValid, RxNow;
      act := BsCheck(0);
      if |data| == 0 || |data| > MAX_MESSAGE_LEN || |data| > txBuffer.Length { return ErrParam, act; }
      if txState != TxIdle { return ErrBusy, act; }
      ghost var before := TxNow();
      act := Load(data);
      SingleAct(before, cfg.nBs, act);
      RecordTx(before, [act]);
      r := Ok;
    }

    /** The message in the buffer, and the sender ready for its first frame. */
    method Store(data: seq<u8>) returns (ghost now: u32)
      requires TxOf().Valid() && TransmitResult(TxOf(), data) == Ok
      modifies this`txState, this`txLength, this`txOffset, this`txTimerStart, txBuffer
      ensures TxOf() == Loaded(old(TxOf()), data, now)
    {
      CopyIn(txBuffer, 0, data);
      txLength := |data|;
      txOffset := 0;
      txState := SendFirst;
      txTimerStart := port.GetTimeMs();
      now := txTimerStart;
    }

    /** The accepting part of IsoTp_Transmit. */
    method Load(data: seq<u8>) returns (ghost act: TxAct)
      requires TxOf().Valid() && TransmitResult(TxOf(), data) == Ok
      modifies this`txState, this`txLength, this`txOffset, this`txSeq, this`txWaitCount, this`txTimerStart,
               this`txSent, this`confs, txBuffer
      ensures act.Transmit? && act.msg == data && TxNow() == TxDo(old(TxNow()), cfg.nBs, act)
    {
      hide TxFirst, Loaded, TransmitResult, Tx.Valid;
      ghost var now := Store(data);
      var ok;
      ghost var after;
      ok, after := TxSendFirst();
      act := TxAct.Transmit(data, now, ok, after);
    }

    /** IsoTp_RxFrame: dispatch on the PCI type; reserved types and impossible lengths are ignored. */
    method RxFrame(data: Frame, dlc: u8) returns (ghost acts: seq<TxAct>, ghost now: u32, ghost accept: bool)
      requires Valid()
      modifies this`txState, this`txOffset, this`txSeq, this`txBlockSize, this`txBlockCount, this`txWaitCount,
               this`txStMinMs, this`txTimerStart, this`txLastCfTime, this`txSent, this`confs, this`txActs,
               this`rxReceiving, this`rxLength, this`rxOffset, this`rxSeq, this`rxBlockCount, this`rxTimerStart,
               this`rxFcPending, this`rxFcStatus, this`rxSent, this`inds, this`rxActs, rxBuffer
      ensures Valid()
      ensures FrameCall(cfg, data, dlc, old(Snapshot()), Snapshot(), acts, now, accept)
    {
      hide FrameCall, Valid;
      acts, now, accept := [], 0, false;
      FrameIgnored(cfg, data, dlc);
      if dlc == 0 || dlc > CAN_DL { return; }
      if Pci(data) < 3 { now, accept := RxFrameData(data, dlc); }
      else if Pci(data) == 3 { acts := RxFrameFc(data, dlc); }
    }

    lemma FrameIgnored(cfg: Cfg, data: Frame, dlc: u8)
      requires Valid()
      ensures dlc == 0 || dlc > CAN_DL || Pci(data) > 3
          ==> FrameCall(cfg, data, dlc, Snapshot(), Snapshot(), [], 0, false)
    {}

    method RxFrameData(data: Frame, dlc: u8) returns (ghost now: u32, ghost accept: bool)
      requires Valid() && 1 <= dlc <= CAN_DL && Pci(data) < 3
      modifies this`rxReceiving, this`rxLength, this`rxOffset, this`rxSeq, this`rxBlockCount, this`rxTimerStart,
               this`rxFcPending, this`rxFcStatus, this`rxSent, this`inds, this`rxActs, rxBuffer
      ensures Valid() && FrameCall(cfg, data, dlc, old(Snapshot()), Snapshot(), [], now, accept)
    {
      hide RxAll, RxDo, TxAll, Asm.Valid, Tx.Valid, FrameCall;
      ghost var s := Snapshot();
      now, accept := RxOnData(data, dlc);
      RecordRx(s.rx, Data(data, dlc, now, accept));
      DataCall(cfg, data, dlc, s, Snapshot(), now, accept);
    }

    method RxFrameFc(data: Frame, dlc: u8) returns (ghost acts: seq<TxAct>)
      requires Valid() && 1 <= dlc <= CAN_DL && Pci(data) == 3
      modifies this`txState, this`txOffset, this`txSeq, this`txBlockSize, this`txBlockCount, this`txWaitCount,
               this`txStMinMs, this`txTimerStart, this`txLastCfTime, this`txSent, this`confs, this`txActs
      ensures Valid() && FrameCall(cfg, data, dlc, old(Snapshot()), Snapshot(), acts, 0, false)
    {
      hide TxAll, TxDo, FcCall, RxAll, Asm.Valid, Tx.Valid, FrameCall;
      ghost var s := Snapshot();
      acts := TxOnFlowControl(data, dlc);
      RecordTx(s.tx, acts);
      FcDone(cfg, data, dlc, s, Snapshot(), acts);
    }

    /** IsoTp_IsTxBusy */
    method IsTxBusy() returns (busy: bool)
      ensures busy == TxOf().Busy()
    {
      busy := txState != TxIdle;
    }

    /** The pending flow control retry of IsoTp_MainFunction. */
    method RxRetry() returns (ghost accept: bool)
      requires RxValid()
      modifies this`rxFcPending, this`rxFcStatus, this`rxSent, this`rxActs
      ensures RxValid() && rxActs == old(rxActs) + [FcRetry(accept)]
      ensures RxNow() == RxDo(old(RxNow()), cfg, FcRetry(accept))
    {
      hide RxAll, Asm.Valid;
      accept := false;
      ghost var before := RxNow();
      assert rxSent + [] == rxSent && inds + [] == inds;
      if rxFcPending { accept := RxSendFlowControl(rxFcStatus); }
      RecordRx(before, FcRetry(accept));
    }

    /** The N_Cr check of IsoTp_MainFunction. */
    method RxTimer() returns (ghost now: u32)
      requires RxValid()
      modifies this`rxReceiving, this`inds, this`rxActs
      ensures RxValid() && rxActs == old(rxActs) + [CrCheck(now)]
      ensures RxNow() == RxDo(old(RxNow()), cfg, CrCheck(now))
    {
      hide RxAll;
      now := 0;
      ghost var before := RxNow();
      assert rxSent + [] == rxSent && inds + [] == inds;
      if rxReceiving {
        var t := port.GetTimeMs();
        now := t;
        if Elapsed(t, rxTimerStart) >= cfg.nCr { RxFinish(ErrTimeoutCr); }
      }
      RecordRx(before, CrCheck(now));
    }

    /** The sender part of IsoTp_MainFunction. */
    method TxPoll() returns (ghost acts: seq<TxAct>)
      requires TxValid()
      modifies this`txState, this`txOffset, this`txSeq, this`txBlockCount, this`txWaitCount,
               this`txTimerStart, this`txLastCfTime, this`txSent, this`confs, this`txActs
      ensures TxValid() && txActs == old(txActs) + acts
      ensures TxNow() == TxAll(old(TxNow()), cfg.nBs, acts)
      ensures PollActs(old(TxOf()), cfg.nBs, acts)
    {
      hide Tx.Valid, TxDo, TxAll, CfLoop;
      ghost var before := TxNow();
      acts := [];
      if txState == SendFirst {
        ghost var act := TxRetry();
        SingleAct(before, cfg.nBs, act);
        acts := [act];
      } else if txState == WaitFc {
        ghost var act := TxTimer();
        SingleAct(before, cfg.nBs, act);
        acts := [act];
      } else if txState == SendCf {
        acts := TxSendConsecutiveFrames();
      } else {
        NoAct(before, cfg.nBs);
      }
      RecordTx(before, acts);
    }

    /** The WAIT_FC case of IsoTp_MainFunction. */
    method TxTimer() returns (ghost act: TxAct)
      requires TxOf().Valid() && txState == WaitFc
      modifies this`txState, this`confs
      ensures act.BsCheck? && TxNow() == TxDo(old(TxNow()), cfg.nBs, act)
    {
      hide Tx.Valid;
      assert txSent + [] == txSent && confs + [] == confs;
      var t := port.GetTimeMs();
      act := BsCheck(t);
      if Elapsed(t, txTimerStart) >= cfg.nBs { TxFinish(ErrTimeoutBs); }
    }

    /** The SEND_FIRST case of IsoTp_MainFunction. */
    method TxRetry() returns (ghost act: TxAct)
      requires TxOf().Valid() && txState == SendFirst
      modifies this`txState, this`txOffset, this`txSeq, this`txWaitCount, this`txTimerStart, this`txSent, this`confs
      ensures act.FirstRetry? && TxNow() == TxDo(old(TxNow()), cfg.nBs, act)
    {
      hide TxFirst;
      ghost var tx := TxOf();
      ghost var now: u32 := 0;
      var ok;
      ghost var after;
      ok, after := TxSendFirst();
      TxFirstCases(tx, after);
      if !ok {
        var t := port.GetTimeMs();
        now := t;
        if Elapsed(t, txTimerStart) >= cfg.nBs { TxFinish(ErrTimeoutBs); }
      }
      act := FirstRetry(ok, after, now);
    }

    /** IsoTp_MainFunction */
    method MainFunction() returns (ghost acts: seq<TxAct>, ghost accept: bool, ghost now: u32)
      requires Valid()
      modifies this`txState, this`txOffset, this`txSeq, this`txBlockCount, this`txWaitCount,
               this`txTimerStart, this`txLastCfTime, this`txSent, this`confs, this`txActs,
               this`rxReceiving, this`rxFcPending, this`rxFcStatus, this`rxSent, this`inds, this`rxActs
      ensures Valid()
      ensures rxActs == old(rxActs) + [FcRetry(accept)] + [CrCheck(now)]
      ensures RxNow() == RxDo(RxDo(old(RxNow()), cfg, FcRetry(accept)), cfg, CrCheck(now))
      ensures txActs == old(txActs) + acts && PollActs(old(TxOf()), cfg.nBs, acts)
      ensures TxNow() == TxAll(old(TxNow()), cfg.nBs, acts)
    {
      hide TxAll, RxAll, TxDo, RxDo, Tx.Valid, Rx.Valid, PollActs, TxValid, TxNow, TxOf, RxValid, RxNow, RxOf;
      accept := RxRetry();
      now := RxTimer();
      acts := TxPoll();
    }
  }

  /** Both halves and their records. */
  datatype Snap = Snap(tx: TxSide, rx: RxSide, txActs: seq<TxAct>, rxActs: seq<RxAct>)

  /** IsoTp_RxFrame as actions: flow control goes to the sender half, data to the receiver half, the rest nowhere. */
  ghost predicate FrameCall(cfg: Cfg, data: Frame, dlc: u8, s: Snap, t: Snap, acts: seq<TxAct>, now: u32,
      accept: bool) {
    s.tx.tx.Valid() && s.rx.rx.Valid() &&
    if dlc == 0 || dlc > 8 || data[0] / 16 > 3 then t == s
    else if data[0] / 16 == 3 then
      && FcCall(s.tx.tx, cfg.nBs, data, dlc, acts)
      && t == s.(tx := TxAll(s.tx, cfg.nBs, acts), txActs := s.txActs + acts)
    else
      var act := Data(data, dlc, now, accept);
      t == s.(rx := RxDo(s.rx, cfg, act), rxActs := s.rxActs + [act])
  }

  lemma DataCall(cfg: Cfg, data: Frame, dlc: u8, s: Snap, t: Snap, now: u32, accept: bool)
    requires s.tx.tx.Valid() && s.rx.rx.Valid() && 1 <= dlc <= CAN_DL && Pci(data) < 3
    requires t.tx == s.tx && t.txActs == s.txActs
    requires t.rx == RxDo(s.rx, cfg, Data(data, dlc, now, accept))
        && t.rxActs == s.rxActs + [Data(data, dlc, now, accept)]
    ensures FrameCall(cfg, data, dlc, s, t, [], now, accept)
  {
    hide RxDo, Asm.Valid, Tx.Valid;
  }

  lemma FcDone(cfg: Cfg, data: Frame, dlc: u8, s: Snap, t: Snap, acts: seq<TxAct>)
    requires s.tx.tx.Valid() && s.rx.rx.Valid() && 1 <= dlc <= CAN_DL && Pci(data) == 3
    requires FcCall(s.tx.tx, cfg.nBs, data, dlc, acts)
    requires t.rx == s.rx && t.rxActs == s.rxActs
    requires t.tx == TxAll(s.tx, cfg.nBs, acts) && t.txActs == s.txActs + acts
    ensures FrameCall(cfg, data, dlc, s, t, acts, 0, false)
  {
    hide TxAll, FcCall, Asm.Valid, Tx.Valid;
  }

  /** The sender part of IsoTp_MainFunction as actions. */
  ghost predicate PollActs(tx: Tx, nBs: u16, acts: seq<TxAct>)
    requires tx.Valid()
  {
    match tx.state
    case TxIdle => acts == []
    case SendFirst => |acts| == 1 && acts[0].FirstRetry?
    case WaitFc => |acts| == 1 && acts[0].BsCheck?
    case SendCf => CfLoop(tx, nBs, acts)
  }

  /** TxOnFlowControl as actions: the frame, and the loop if it was an accepted continue-to-send. */
  ghost predicate FcCall(tx: Tx, nBs: u16, data: Frame, dlc: u8, acts: seq<TxAct>)
    requires tx.Valid()
  {
    && acts != [] && acts[0].Fc? && acts[0].data == data && acts[0].dlc == dlc
    && if tx.state == WaitFc && dlc >= 3 && data[0] % 16 == FC_CTS
       then CfLoop(TxStep(tx, nBs, acts[0]).tx, nBs, acts[1..])
       else |acts| == 1
  }

  /** Rounds of the loop that all sent a frame. */
  ghost predicate CfRounds(tx: Tx, nBs: u16, acts: seq<TxAct>)
    requires tx.Valid()
    decreases |acts|
  {
    acts == [] ||
    (&& tx.state == SendCf && acts[0].Cf? && !CfBlocked(tx, acts[0].check, acts[0].accept)
     && CfRounds(TxStep(tx, nBs, acts[0]).tx, nBs, acts[1..]))
  }

  lemma NoAct(s: TxSide, nBs: u16)
    requires s.tx.Valid()
    ensures TxAll(s, nBs, []) == s
  {}

  lemma SingleAct(s: TxSide, nBs: u16, act: TxAct)
    requires s.tx.Valid()
    ensures TxAll(s, nBs, [act]) == TxDo(s, nBs, act)
  {
    hide TxDo;
    assert [act][..0] == [];
  }

  lemma {:induction false} TxAllFirst(s: TxSide, nBs: u16, acts: seq<TxAct>)
    requires s.tx.Valid() && acts != []
    ensures TxAll(s, nBs, acts) == TxAll(TxDo(s, nBs, acts[0]), nBs, acts[1..])
  {
    hide TxDo;
    assert acts == [acts[0]] + acts[1..];
    assert [acts[0]][..0] == [];
    TxAllAppend(s, nBs, [acts[0]], acts[1..]);
    assert TxAll(s, nBs, [acts[0]]) == TxDo(s, nBs, acts[0]);
  }

  lemma {:induction false} RoundAppend(s: TxSide, nBs: u16, acts: seq<TxAct>, act: TxAct)
    requires s.tx.Valid() && CfRounds(s.tx, nBs, acts) && act.Cf? && TxAll(s, nBs, acts).tx.state == SendCf
    ensures if CfBlocked(TxAll(s, nBs, acts).tx, act.check, act.accept) then CfLoop(s.tx, nBs, acts + [act])
            else CfRounds(s.tx, nBs, acts + [act])
    decreases |acts|
  {
    hide TxStep;
    if acts == [] {
      assert [act][1..] == [];
      assert acts + [act] == [act];
    } else {
      TxAllFirst(s, nBs, acts);
      assert (acts + [act])[1..] == acts[1..] + [act];
      RoundAppend(TxDo(s, nBs, acts[0]), nBs, acts[1..], act);
    }
  }

  lemma {:induction false} RoundsEnd(s: TxSide, nBs: u16, acts: seq<TxAct>)
    requires s.tx.Valid() && CfRounds(s.tx, nBs, acts) && TxAll(s, nBs, acts).tx.state != SendCf
    ensures CfLoop(s.tx, nBs, acts)
    decreases |acts|
  {
    hide TxStep;
    if acts != [] {
      TxAllFirst(s, nBs, acts);
      RoundsEnd(TxDo(s, nBs, acts[0]), nBs, acts[1..]);
    }
  }

  lemma SfOnly(a: Asm, data: Frame, dlc: u8)
    requires a.Valid() && 1 <= dlc <= CAN_DL
    ensures Pci(data) == 0 ==> OnSingleFrame(a, data, dlc).fc == None && !OnSingleFrame(a, data, dlc).rearm
  {}

  lemma SendFcInds(rx: Rx, cfg: Cfg, status: u8, accept: bool, inds: seq<Ind>)
    requires rx.Valid() && status in {FC_CTS, FC_OVFLW}
    ensures SendFc(rx, cfg, status, accept, inds) == SendFc(rx, cfg, status, accept, []).(inds := inds)
  {}

  lemma TxFcCases(tx: Tx, data: Frame, dlc: u8, now: u32)
    requires tx.Valid()
    ensures tx.state != WaitFc || dlc < 3 ==> TxFc(tx, data, dlc, now) == TxOut(tx, [], [])
    ensures dlc >= 3 ==> TxFc(tx, data, dlc, now) == TxFc(tx, data, 3, now)
    ensures TxFc(tx, data, dlc, now).sent == []
    ensures data[0] % 16 == FC_CTS ==> TxFc(tx, data, dlc, now).confs == []
  {}

  lemma FirstBytes(tx: Tx)
    requires tx.Valid() && tx.state == SendFirst
    ensures TxFirst(tx, true, 0).sent == [
      if tx.length <= SF_MAX_DATA then Pad([tx.length] + tx.buf[..tx.length])
      else [0x10 + tx.length / 256, tx.length % 256] + tx.buf[..FF_DATA]]
  {}

  /** TxSendFirst by outcome. */
  lemma TxFirstCases(tx: Tx, after: u32)
    requires tx.Valid() && tx.state == SendFirst
    ensures TxFirst(tx, false, after) == TxOut(tx, [], [])
    ensures TxFirst(tx, true, after).sent == TxFirst(tx, true, 0).sent
  {}

  /** A round of the loop by outcome. */
  lemma TxCfCases(tx: Tx, nBs: u16, check: u32, record: u32, block: u32)
    requires tx.Valid() && tx.state == SendCf
    ensures TxStep(tx, nBs, Cf(check, false, record, block)) == TxOut(tx, [], [])
    ensures !StMinHolds(tx, check) ==>
      var t := AfterCf(Advance(tx, record), block);
      && TxStep(tx, nBs, Cf(check, true, record, block))
         == TxOut(t, [Pad([0x20 + tx.sn] + tx.buf[tx.offset..tx.offset + Chunk(tx)])], if t.Busy() then [] else [Ok])
      && t.offset == tx.offset + Chunk(tx) && t.length == tx.length && 0 < Chunk(tx) <= tx.length - tx.offset
  {
    hide Pad;
  }

  lemma AfterCfBusy(next: Tx, block: u32)
    requires next.Busy()
    ensures AfterCf(next, block).Busy() <==> next.offset < next.length
  {}
}
