/**
 * control_ecu/CM4/Core/App/diag_app.c: the glue between the server object and the ECU's link object.
 *
 * RespondTo is followed here up to the moment the response is handed to the link; the link's confirmation callback
 * is `OnEcuResponseSent`. `DiagReset` composes them into runs.
 */
module DiagApp {
  import opened Words
  import opened Dtc
  import opened DtcManager
  import opened IsoTpModel
  import opened IsoTpLink
  import opened UdsModel
  import opened UdsServer

  const BUFFER_SIZE: u16 := 256

  /** A functional request is the payload of a single frame shorter than its data length. */
  function FunctionalRequest(data: Frame, dlc: u8): Option<Bytes>
    requires dlc <= CAN_DL
  {
    var n := data[0] % 16;
    if data[0] / 16 == 0 && n > 0 && n < dlc then Some(data[1..1 + n]) else None
  }

  /**
   * The functional branch reads a frame as an ISO-TP link would: it finds the bytes that a receiver with room for
   * seven bytes indicates as Ok for the same frame, and nothing exactly when that receiver indicates no Ok for it,
   * unless the frame is a consecutive frame that completes a longer message.
   */
  lemma FunctionalAsPhysical(a: Asm, bs: u8, data: Frame, dlc: u8)
    requires a.Valid() && |a.buf| >= SF_MAX_DATA && dlc <= CAN_DL && Pci(data) != 2
    ensures var inds := AsmStep(a, bs, data, dlc).inds;
      match FunctionalRequest(data, dlc)
      case Some(req) => inds != [] && inds[|inds| - 1] == Ind(req, Ok)
      case None => forall i :: 0 <= i < |inds| ==> inds[i].result != Ok
  {}

  /** The tester's single frame for a message of up to seven bytes is read back as that message. */
  lemma FunctionalRoundTrip(m: seq<u8>)
    requires 1 <= |m| <= SF_MAX_DATA
    ensures FunctionalRequest(SingleFrame(m), CAN_DL) == Some(m)
  {
    var f := SingleFrame(m);
    assert f[0] == |m| && f[1..1 + |m|] == m;
  }

  /** RespondTo on values: the server answers, and the reply, if any, goes to the link as one Transmit. */
  ghost predicate Responds(s: Srv, s': Srv, tx: TxSide, tx': TxSide, nBs: u16, w: World, now: u32, req: Bytes,
                           functional: bool, reply: Bytes, act: TxAct)
  {
    && tx.tx.Valid() && (|req| >= 1 ==> Fits(w, req))
    && (s', reply) == Process(s, w, now, req, functional, BUFFER_SIZE)
    && if reply == [] || TransmitResult(tx.tx, reply) != Ok then tx' == tx
       else act.Transmit? && act.msg == reply && tx' == TxDo(tx, nBs, act)
  }

  class App {
    const server: Server
    const link: Link
    const respBuf: array<u8>

    ghost predicate Valid()
      reads this, server, link, link.txBuffer, link.rxBuffer, server.dtc, server.dtc.entries
    {
      && link.Valid() && server.dtc.Valid() && respBuf.Length == BUFFER_SIZE
      && respBuf != link.txBuffer && respBuf != link.rxBuffer
    }

    constructor (server: Server, link: Link)
      requires link.Valid() && server.dtc.Valid()
      ensures Valid() && this.server == server && this.link == link && fresh(respBuf) && respBuf.Length == 256
    {
      this.server, this.link := server, link;
      respBuf := new u8[BUFFER_SIZE](_ => 0);
    }

    /** RespondTo */
    method RespondTo(req: Bytes, functional: bool, now: u32) returns (reply: Bytes, ghost w: World, ghost act: TxAct)
      requires Valid()
      modifies server`session, server`pendingReset, server`lastRequestMs, respBuf, server.dtc.entries,
          server.dtc`history
      modifies link`txState, link`txLength, link`txOffset, link`txSeq, link`txWaitCount, link`txTimerStart,
               link`txSent, link`confs, link`txActs, link.txBuffer
      ensures Valid() && link.RxNow() == old(link.RxNow())
      ensures Responds(old(server.State()), server.State(), old(link.TxNow()), link.TxNow(), link.cfg.nBs, w, now, req,
                       functional, reply, act)
    {
      hide Process, Fits, Link.TxValid, Link.RxValid, TxDo;
      act := BsCheck(0);
      LinkTxValid();
      var n;
      n, w := server.ProcessRequest(req, functional, respBuf, BUFFER_SIZE, now);
      reply := respBuf[..n];
      if n > 0 {
        var result;
        result, act := link.Transmit(reply);
      }
    }

    lemma LinkTxValid()
      requires link.Valid()
      ensures link.TxOf().Valid()
    {}

    /** OnEcuRequest: exactly a complete message is answered, as a physical request. */
    method OnEcuRequest(data: Bytes, result: Result, now: u32) returns (reply: Bytes, ghost w: World, ghost act: TxAct)
      requires Valid()
      modifies server`session, server`pendingReset, server`lastRequestMs, respBuf, server.dtc.entries,
          server.dtc`history
      modifies link`txState, link`txLength, link`txOffset, link`txSeq, link`txWaitCount, link`txTimerStart,
               link`txSent, link`confs, link`txActs, link.txBuffer
      ensures Valid() && link.RxNow() == old(link.RxNow())
      ensures result != Ok ==> server.State() == old(server.State()) && link.TxNow() == old(link.TxNow()) && reply == []
      ensures result == Ok ==>
        Responds(old(server.State()), server.State(), old(link.TxNow()), link.TxNow(), link.cfg.nBs, w, now, data,
                 false, reply, act)
    {
      hide Responds, Link.TxValid, Link.RxValid;
      reply, w, act := [], World(server.dids, server.dtc.table, [], [], []), BsCheck(0);
      if result == Ok { reply, w, act := RespondTo(data, false, now); }
    }

    /** The functional branch of DiagApp_OnFrame: the request is answered without touching the receiver half. */
    method OnFunctionalFrame(data: Frame, dlc: u8, now: u32) returns (reply: Bytes, ghost w: World, ghost act: TxAct)
      requires Valid() && dlc <= CAN_DL
      modifies server`session, server`pendingReset, server`lastRequestMs, respBuf, server.dtc.entries,
          server.dtc`history
      modifies link`txState, link`txLength, link`txOffset, link`txSeq, link`txWaitCount, link`txTimerStart,
               link`txSent, link`confs, link`txActs, link.txBuffer
      ensures Valid() && link.RxNow() == old(link.RxNow())
      ensures var r := FunctionalRequest(data, dlc);
        if r.None? then reply == [] && server.State() == old(server.State()) && link.TxNow() == old(link.TxNow())
        else Responds(old(server.State()), server.State(), old(link.TxNow()), link.TxNow(), link.cfg.nBs, w, now,
                      r.value, true, reply, act)
    {
      hide Responds, Link.TxValid, Link.RxValid;
      reply, w, act := [], World(server.dids, server.dtc.table, [], [], []), BsCheck(0);
      var length := data[0] % 16;
      if data[0] / 16 == 0 && length > 0 && length < dlc {
        reply, w, act := RespondTo(data[1..1 + length], true, now);
      }
    }

    /** OnEcuResponseSent: a pending reset runs only in an Ok confirmation. */
    method OnEcuResponseSent(result: Result) returns (reset: Option<u8>)
      modifies server`pendingReset, server`session
      ensures (server.State(), reset) == if result == Ok then TakeReset(old(server.State()))
          else (old(server.State()), None)
    {
      reset := None;
      if result == Ok { reset := server.ExecutePendingReset(); }
    }
  }
}
