/**
 * The ISO-TP link of common/isotp/isotp.c as functions on values.
 *
 * A link has two halves that never touch each other's fields: the sender `Tx` and the receiver `Rx`.
 * Every call into the C module is a short list of atomic actions of one half. What the environment
 * decides (the clock readings, whether the CAN driver takes a frame) is carried by the action, so each
 * action is a function; class `Link` in IsoTpLink.dfy is proved to perform exactly these actions.
 */
module IsoTpModel {
  import opened Words

  const CAN_DL: int := 8
  const PADDING: u8 := 0xCC
  const MAX_MESSAGE_LEN: int := 4095
  const SF_MAX_DATA: int := 7
  const FF_DATA: int := 6
  const CF_MAX_DATA: int := 7
  const MAX_WFT: int := 10
  const DEFAULT_N_BS_MS: u16 := 1000
  const DEFAULT_N_CR_MS: u16 := 1000

  const FC_CTS: u8 := 0
  const FC_WAIT: u8 := 1
  const FC_OVFLW: u8 := 2

  datatype Result =
    | Ok | ErrBusy | ErrParam | ErrTimeoutBs | ErrTimeoutCr | ErrWrongSn
    | ErrOverflow | ErrWftOvrn | ErrUnexpPdu | ErrInvalidFs

  /** A frame as the module emits it; also the 8-byte data field a received frame is read from. */
  type Frame = f: seq<u8> | |f| == CAN_DL witness [0, 0, 0, 0, 0, 0, 0, 0]

  function Min(a: int, b: int): int { if a <= b then a else b }

  /** Completes a frame with padding bytes. */
  function Pad(s: seq<u8>): (f: Frame)
    requires |s| <= CAN_DL
  {
    s + seq(CAN_DL - |s|, _ => PADDING)
  }

  function Pci(f: Frame): int { f[0] / 16 }

  // ---------------------------------------------------------------------------------------------
  // What a message looks like on the bus, independently of how the code produces it.
  // ---------------------------------------------------------------------------------------------

  ghost predicate IsMessage(m: seq<u8>) { 1 <= |m| <= MAX_MESSAGE_LEN }

  /** The number of consecutive frames, ceil((n - 6) / 7). */
  function CfCount(n: int): int
    requires n > SF_MAX_DATA
  {
    (n - FF_DATA + CF_MAX_DATA - 1) / CF_MAX_DATA
  }

  function SingleFrame(m: seq<u8>): Frame
    requires 1 <= |m| <= SF_MAX_DATA
  {
    Pad([|m|] + m)
  }

  function FirstFrame(m: seq<u8>): Frame
    requires SF_MAX_DATA < |m| <= MAX_MESSAGE_LEN
  {
    [0x10 + |m| / 256, |m| % 256] + m[..FF_DATA]
  }

  /** The bytes the k-th consecutive frame carries, counting from 0. */
  function CfPayload(m: seq<u8>, k: nat): seq<u8>
    requires SF_MAX_DATA < |m| && k < CfCount(|m|)
  {
    m[FF_DATA + CF_MAX_DATA * k .. Min(FF_DATA + CF_MAX_DATA * (k + 1), |m|)]
  }

  function ConsecutiveFrame(m: seq<u8>, k: nat): Frame
    requires SF_MAX_DATA < |m| && k < CfCount(|m|)
  {
    Pad([0x20 + (k + 1) % 16] + CfPayload(m, k))
  }

  /** All data frames of one message, in the order of section 9.6 of ISO 15765-2. */
  function Segment(m: seq<u8>): seq<Frame>
    requires IsMessage(m)
  {
    if |m| <= SF_MAX_DATA then [SingleFrame(m)]
    else [FirstFrame(m)] + seq(CfCount(|m|), k requires 0 <= k < CfCount(|m|) => ConsecutiveFrame(m, k))
  }

  function FcFrame(status: u8, blockSize: u8, stMin: u8): Frame
    requires status < 16
  {
    Pad([0x30 + status, blockSize, stMin])
  }

  // ---------------------------------------------------------------------------------------------
  // Sender half
  // ---------------------------------------------------------------------------------------------

  datatype TxState = TxIdle | SendFirst | WaitFc | SendCf

  datatype Tx = Tx(
    state: TxState, buf: seq<u8>, length: u16, offset: u16, sn: u8,
    blockSize: u8, blockCount: u8, stMin: u32, timerStart: u32, lastCf: u32, waitCount: u8)
  {
    predicate Busy() { state != TxIdle }

    /** A first frame is out and at least one byte is left. */
    predicate Streaming() { state == WaitFc || state == SendCf }

    /** The position is a frame boundary and the sequence number is the one due there. */
    predicate Aligned() {
      && (offset - FF_DATA) % CF_MAX_DATA == 0
      && sn == ((offset - FF_DATA) / CF_MAX_DATA + 1) % 16
    }

    predicate Valid() {
      && |buf| < TWO16
      && (Busy() ==> 1 <= length <= Min(MAX_MESSAGE_LEN, |buf|))
      && (Streaming() ==>
            && SF_MAX_DATA < length
            && FF_DATA <= offset < length
            && Aligned())
      && (state == SendCf && blockSize != 0 ==> blockCount < blockSize)
      && stMin <= 0x7F
      && (Streaming() ==> waitCount <= MAX_WFT)
    }

    /** The message being sent. */
    function Message(): seq<u8>
      requires Valid() && Busy()
    {
      buf[..length]
    }

    /** How many data frames of the current message are already out. */
    function Emitted(): nat
      requires Valid() && Busy()
    {
      if state == SendFirst then 0 else 1 + (offset - FF_DATA) / CF_MAX_DATA
    }
  }

  /** A buffer as the caller of IsoTp_Init supplies it; its contents do not matter. */
  type Buffer = b: seq<u8> | |b| < TWO16

  /** The sender half after IsoTp_Init. */
  function IdleTx(buf: Buffer): (tx: Tx)
    ensures tx.Valid()
  {
    Tx(TxIdle, buf, 0, 0, 0, 0, 0, 0, 0, 0, 0)
  }

  datatype TxOut = TxOut(tx: Tx, sent: seq<Frame>, confs: seq<Result>)

  datatype TxAct =
    /** IsoTp_Transmit: `now` stamps the timer, `after` the moment after an accepted first frame. */
    | Transmit(msg: seq<u8>, now: u32, accept: bool, after: u32)
    /** The SEND_FIRST case of IsoTp_MainFunction. */
    | FirstRetry(accept: bool, after: u32, now: u32)
    /** The WAIT_FC case of IsoTp_MainFunction. */
    | BsCheck(now: u32)
    /** A received flow control frame, up to the point where consecutive frames may start. */
    | Fc(data: Frame, dlc: u8, now: u32)
    /** One round of the loop in TxSendConsecutiveFrames. */
    | Cf(check: u32, accept: bool, record: u32, block: u32)

  function DecodeStMin(raw: u8): (ms: u32)
  {
    if raw <= 0x7F then raw else if 0xF1 <= raw <= 0xF9 then 1 else 0x7F
  }

  function TransmitResult(tx: Tx, msg: seq<u8>): Result {
    if |msg| == 0 || |msg| > MAX_MESSAGE_LEN || |msg| > |tx.buf| then ErrParam
    else if tx.Busy() then ErrBusy
    else Ok
  }

  /** What Transmit loads into the buffer before it tries the first frame. */
  function Loaded(tx: Tx, msg: seq<u8>, now: u32): (t: Tx)
    requires tx.Valid() && TransmitResult(tx, msg) == Ok
    ensures t.Valid() && t.state == SendFirst && t.Message() == msg && |t.buf| == |tx.buf|
  {
    tx.(buf := msg + tx.buf[|msg|..], length := |msg|, offset := 0, state := SendFirst, timerStart := now)
  }

  /** TxSendFirst */
  function TxFirst(tx: Tx, accept: bool, after: u32): (o: TxOut)
    requires tx.Valid() && tx.state == SendFirst
    ensures o.tx.Valid() && o.tx.buf == tx.buf
  {
    if !accept then TxOut(tx, [], [])
    else if tx.length <= SF_MAX_DATA then
      TxOut(tx.(state := TxIdle), [Pad([tx.length] + tx.buf[..tx.length])], [Ok])
    else
      TxOut(tx.(state := WaitFc, offset := FF_DATA, sn := 1, waitCount := 0, timerStart := after),
            [[0x10 + tx.length / 256, tx.length % 256] + tx.buf[..FF_DATA]], [])
  }

  /** The chunk length of the next consecutive frame. */
  function Chunk(tx: Tx): int
    requires tx.Valid() && tx.Streaming()
  {
    Min(tx.length - tx.offset, CF_MAX_DATA)
  }

  predicate StMinHolds(tx: Tx, check: u32) {
    tx.stMin > 0 && Elapsed(check, tx.lastCf) <= tx.stMin
  }

  /** True if a loop round with these inputs is the last one for now. */
  predicate CfBlocked(tx: Tx, check: u32, accept: bool) {
    StMinHolds(tx, check) || !accept
  }

  /** The position after an accepted consecutive frame. */
  function Advance(tx: Tx, record: u32): (t: Tx)
    requires tx.Valid() && tx.state == SendCf
    ensures t.offset <= t.length
    ensures t.offset < t.length ==> t.Aligned()
  {
    NextBoundary(tx.offset, tx.sn);
    tx.(offset := tx.offset + Chunk(tx), sn := (tx.sn + 1) % 16, lastCf := record)
  }

  /** A full frame further, position and sequence number fit together again. */
  lemma NextBoundary(offset: int, sn: u8)
    requires (offset - FF_DATA) % CF_MAX_DATA == 0 && sn == ((offset - FF_DATA) / CF_MAX_DATA + 1) % 16
    ensures (offset + CF_MAX_DATA - FF_DATA) % CF_MAX_DATA == 0
    ensures (sn + 1) % 16 == ((offset + CF_MAX_DATA - FF_DATA) / CF_MAX_DATA + 1) % 16
  {
    assert (offset + CF_MAX_DATA - FF_DATA) / CF_MAX_DATA == (offset - FF_DATA) / CF_MAX_DATA + 1;
  }

  /** What an accepted consecutive frame does to the block credit, at the already advanced position. */
  function AfterCf(next: Tx, block: u32): Tx {
    if next.offset >= next.length then next.(state := TxIdle)
    else if next.blockSize == 0 then next
    else
      var count := (next.blockCount + 1) % TWO8;
      if count >= next.blockSize
      then next.(blockCount := count, state := WaitFc, timerStart := block)
      else next.(blockCount := count)
  }

  function TxCf(tx: Tx, check: u32, accept: bool, record: u32, block: u32): (o: TxOut)
    requires tx.Valid() && tx.state == SendCf
    ensures o.tx.Valid() && o.tx.buf == tx.buf
  {
    if CfBlocked(tx, check, accept) then TxOut(tx, [], [])
    else
      var next := AfterCf(Advance(tx, record), block);
      TxOut(next, [Pad([0x20 + tx.sn] + tx.buf[tx.offset..tx.offset + Chunk(tx)])],
            if next.Busy() then [] else [Ok])
  }

  /** TxOnFlowControl, without the consecutive frames it may start. */
  function TxFc(tx: Tx, data: Frame, dlc: u8, now: u32): (o: TxOut)
    requires tx.Valid()
    ensures o.tx.Valid() && o.tx.buf == tx.buf && o.sent == []
    ensures tx.state != WaitFc || dlc < 3 ==> o.tx == tx && o.confs == []
    ensures tx.state == WaitFc && dlc >= 3 ==>
      if data[0] % 16 == 0 then o.tx.state == SendCf && o.confs == []
      else if data[0] % 16 == 1 && tx.waitCount < 10 then o.tx.state == WaitFc && o.confs == []
      else o.tx.state == TxIdle && |o.confs| == 1 && o.confs[0] != Ok
  {
    if tx.state != WaitFc || dlc < 3 then TxOut(tx, [], [])
    else
      var status := data[0] % 16;
      if status == FC_CTS then
        var ms := DecodeStMin(data[2]);
        TxOut(tx.(blockSize := data[1], blockCount := 0, waitCount := 0, stMin := ms,
                  lastCf := Elapsed(now, ms + 1), state := SendCf), [], [])
      else if status == FC_WAIT then
        var count := (tx.waitCount + 1) % TWO8;
        if count > MAX_WFT then TxOut(tx.(waitCount := count, state := TxIdle), [], [ErrWftOvrn])
        else TxOut(tx.(waitCount := count, timerStart := now), [], [])
      else if status == FC_OVFLW then TxOut(tx.(state := TxIdle), [], [ErrOverflow])
      else TxOut(tx.(state := TxIdle), [], [ErrInvalidFs])
  }

  function TxStep(tx: Tx, nBs: u16, act: TxAct): (o: TxOut)
    requires tx.Valid()
    ensures o.tx.Valid() && |o.tx.buf| == |tx.buf|
  {
    match act
    case Transmit(msg, now, accept, after) =>
      if TransmitResult(tx, msg) != Ok then TxOut(tx, [], [])
      else TxFirst(Loaded(tx, msg, now), accept, after)
    case FirstRetry(accept, after, now) =>
      if tx.state != SendFirst then TxOut(tx, [], [])
      else if !accept && Elapsed(now, tx.timerStart) >= nBs
      then TxOut(tx.(state := TxIdle), [], [ErrTimeoutBs])
      else TxFirst(tx, accept, after)
    case BsCheck(now) =>
      if tx.state == WaitFc && Elapsed(now, tx.timerStart) >= nBs
      then TxOut(tx.(state := TxIdle), [], [ErrTimeoutBs])
      else TxOut(tx, [], [])
    case Fc(data, dlc, now) => TxFc(tx, data, dlc, now)
    case Cf(check, accept, record, block) =>
      if tx.state != SendCf then TxOut(tx, [], []) else TxCf(tx, check, accept, record, block)
  }

  // ---------------------------------------------------------------------------------------------
  // Receiver half
  // ---------------------------------------------------------------------------------------------

  /** An rxIndication callback: the bytes handed to the application and the result. */
  datatype Ind = Ind(data: seq<u8>, result: Result)

  /** The reassembly fields of the receiver. */
  datatype Asm = Asm(
    receiving: bool, buf: seq<u8>, length: u16, offset: u16, sn: u8, blockCount: u8)
  {
    predicate Valid() {
      && |buf| < TWO16
      && (receiving ==> FF_DATA <= offset < length <= |buf| && SF_MAX_DATA < length <= MAX_MESSAGE_LEN)
      && sn < 16
    }
  }

  /** `rearm`: the N_Cr timer restarts; `fc`: a flow control frame with this status is due. */
  datatype AsmOut = AsmOut(asm: Asm, inds: seq<Ind>, rearm: bool, fc: Option<u8>)

  function Ignore(a: Asm): AsmOut { AsmOut(a, [], false, None) }

  /** RxFinish with an error: what arrived so far is indicated. */
  function Abort(a: Asm, why: Result): Ind
    requires a.Valid() && a.receiving
  {
    Ind(a.buf[..a.offset], why)
  }

  function Interrupted(a: Asm): seq<Ind>
    requires a.Valid()
  {
    if a.receiving then [Abort(a, ErrUnexpPdu)] else []
  }

  function Overwrite(buf: seq<u8>, at: nat, bytes: seq<u8>): (r: seq<u8>)
    requires at + |bytes| <= |buf|
  {
    buf[..at] + bytes + buf[at + |bytes|..]
  }

  function OnSingleFrame(a: Asm, data: Frame, dlc: u8): AsmOut
    requires a.Valid() && 1 <= dlc <= CAN_DL
  {
    var n := data[0] % 16;
    if n == 0 || n > SF_MAX_DATA || n > dlc - 1 || n > |a.buf| then Ignore(a)
    else
      AsmOut(a.(receiving := false, buf := Overwrite(a.buf, 0, data[1..1 + n]), length := n),
             Interrupted(a) + [Ind(data[1..1 + n], Ok)], false, None)
  }

  function OnFirstFrame(a: Asm, data: Frame, dlc: u8): AsmOut
    requires a.Valid() && 1 <= dlc <= CAN_DL
  {
    var n: int := (data[0] % 16) as int * 256 + data[1];
    if dlc < CAN_DL || n <= SF_MAX_DATA then Ignore(a)
    else if n > |a.buf| then AsmOut(a.(receiving := false), Interrupted(a), false, Some(FC_OVFLW))
    else
      AsmOut(Asm(true, Overwrite(a.buf, 0, data[2..]), n, FF_DATA, 1, 0), Interrupted(a), true, Some(FC_CTS))
  }

  function OnConsecutiveFrame(a: Asm, blockSize: u8, data: Frame, dlc: u8): AsmOut
    requires a.Valid() && 1 <= dlc <= CAN_DL
  {
    if !a.receiving then Ignore(a)
    else if data[0] % 16 != a.sn then AsmOut(a.(receiving := false), [Abort(a, ErrWrongSn)], false, None)
    else
      var n := Min(a.length - a.offset, CF_MAX_DATA);
      if n > dlc - 1 then Ignore(a)
      else
        var next := a.(buf := Overwrite(a.buf, a.offset, data[1..1 + n]), offset := a.offset + n,
            sn := (a.sn + 1) % 16);
        if next.offset >= next.length
        then AsmOut(next.(receiving := false), [Ind(next.buf[..next.length], Ok)], true, None)
        else if blockSize == 0 then AsmOut(next, [], true, None)
        else
          var count := (a.blockCount + 1) % TWO8;
          if count >= blockSize then AsmOut(next.(blockCount := 0), [], true, Some(FC_CTS))
          else AsmOut(next.(blockCount := count), [], true, None)
  }

  /** The data cases of IsoTp_RxFrame: reassembly, without clock and driver. */
  function AsmStep(a: Asm, blockSize: u8, data: Frame, dlc: u8): (o: AsmOut)
    requires a.Valid()
    ensures o.asm.Valid() && |o.asm.buf| == |a.buf|
    ensures o.fc.Some? ==> o.fc.value in {FC_CTS, FC_OVFLW}
  {
    if dlc == 0 || dlc > CAN_DL then Ignore(a)
    else match Pci(data)
      case 0 => OnSingleFrame(a, data, dlc)
      case 1 => OnFirstFrame(a, data, dlc)
      case 2 => OnConsecutiveFrame(a, blockSize, data, dlc)
      case _ => Ignore(a)
  }

  datatype Rx = Rx(asm: Asm, timerStart: u32, fcPending: bool, fcStatus: u8)
  {
    predicate Valid() { asm.Valid() && fcStatus in {FC_CTS, FC_OVFLW} }
  }

  /** The receiver half after IsoTp_Init. */
  function IdleRx(buf: Buffer): (rx: Rx)
    ensures rx.Valid()
  {
    Rx(Asm(false, buf, 0, 0, 0, 0), 0, false, FC_CTS)
  }

  datatype RxOut = RxOut(rx: Rx, sent: seq<Frame>, inds: seq<Ind>)

  datatype RxAct =
    /** A received SF, FF or CF; `accept` answers for the flow control frame it may trigger. */
    | Data(data: Frame, dlc: u8, now: u32, accept: bool)
    /** The pending flow control retry of IsoTp_MainFunction. */
    | FcRetry(accept: bool)
    /** The N_Cr check of IsoTp_MainFunction. */
    | CrCheck(now: u32)

  datatype Cfg = Cfg(blockSize: u8, stMin: u8, nBs: u16, nCr: u16)

  /** RxSendFlowControl */
  function SendFc(rx: Rx, cfg: Cfg, status: u8, accept: bool, inds: seq<Ind>): RxOut
    requires rx.Valid() && status in {FC_CTS, FC_OVFLW}
  {
    if accept then RxOut(rx.(fcPending := false), [FcFrame(status, cfg.blockSize, cfg.stMin)], inds)
    else RxOut(rx.(fcPending := true, fcStatus := status), [], inds)
  }

  function RxStep(rx: Rx, cfg: Cfg, act: RxAct): (o: RxOut)
    requires rx.Valid()
    ensures o.rx.Valid() && |o.rx.asm.buf| == |rx.asm.buf|
  {
    match act
    case Data(data, dlc, now, accept) =>
      var o := AsmStep(rx.asm, cfg.blockSize, data, dlc);
      var next := rx.(asm := o.asm, timerStart := if o.rearm then now else rx.timerStart);
      if o.fc.Some? then SendFc(next, cfg, o.fc.value, accept, o.inds) else RxOut(next, [], o.inds)
    case FcRetry(accept) =>
      if rx.fcPending then SendFc(rx, cfg, rx.fcStatus, accept, []) else RxOut(rx, [], [])
    case CrCheck(now) =>
      if rx.asm.receiving && Elapsed(now, rx.timerStart) >= cfg.nCr
      then RxOut(rx.(asm := rx.asm.(receiving := false)), [], [Abort(rx.asm, ErrTimeoutCr)])
      else RxOut(rx, [], [])
  }
}
