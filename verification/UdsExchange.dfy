/**
 * The whole diagnostic path: the client over one link, the server over the other, both directions of traffic
 * between them as in IsoTpPair.dfy.
 *
 * The client starts a request when it has heard a response to the previous one or knows that none is coming; its
 * suppressed testerPresent it does not wait for at all. The server takes each request from an Ok indication of its
 * link and hands the reply to the same link. Everything else may happen at any time: any interleaving of calls and
 * deliveries, any refusals of either driver, any change of the server's state between two requests.
 */
module UdsExchange {
  import opened Words
  import opened IsoTpModel
  import S = IsoTpSession
  import P = IsoTpPair
  import C = IsoTpCost
  import opened Dtc
  import opened DtcManager
  import DiagApp
  import opened UdsModel
  import opened UdsClient
  import UdsRoundTrip

  /** One request at the server: the state, the world and the time it was decided in, and what was sent back. */
  datatype Exchange = Exchange(srv: Srv, world: World, now: u32, req: Bytes, reply: Bytes)

  /** `heard`: how many responses the client had received when it last started a request. */
  datatype Conv = Conv(sys: P.System, srv: Srv, log: seq<Exchange>, heard: nat)

  datatype Act =
    /** Any call of either link that starts no message. */
    | Bus(act: P.Act)
    /** The client hands a request to its link. */
    | Ask(req: Bytes, started: u32, accept: bool, after: u32)
    /** OnEcuRequest for the next indication; the last three are the clock and driver answers in IsoTp_Transmit. */
    | Serve(world: World, now: u32, started: u32, accept: bool, after: u32)
    /** Anything else that changes the server: S3 timeout, reset, other requests. */
    | Server(srv: Srv)

  ghost predicate Valid(v: Conv) { P.Valid(v.sys) }

  ghost function AskAct(act: Act): P.Act
    requires act.Ask?
  {
    P.AtA(P.Send(Transmit(act.req, act.started, act.accept, act.after)))
  }

  ghost function ReplyAct(reply: Bytes, act: Act): P.Act
    requires act.Serve?
  {
    P.AtB(P.Send(Transmit(reply, act.started, act.accept, act.after)))
  }

  /** The server has an indication it has not answered yet. */
  ghost predicate Waiting(v: Conv) { |v.log| < |v.sys.b.inds| && v.sys.b.inds[|v.log|].result == Ok }

  ghost predicate Possible(req: Bytes, w: World) { req != [] ==> Fits(w, req) }

  ghost function Served(v: Conv, act: Act): Exchange
    requires Waiting(v) && act.Serve? && Possible(v.sys.b.inds[|v.log|].data, act.world)
  {
    var req := v.sys.b.inds[|v.log|].data;
    Exchange(v.srv, act.world, act.now, req, Process(v.srv, act.world, act.now, req, false, DiagApp.BUFFER_SIZE).1)
  }

  /** What an exchange leaves behind in the server. */
  ghost function After(e: Exchange): Srv
    requires Possible(e.req, e.world)
  {
    Process(e.srv, e.world, e.now, e.req, false, DiagApp.BUFFER_SIZE).0
  }

  ghost function Step(v: Conv, c: P.Configs, act: Act): (r: Conv)
    requires Valid(v)
    ensures Valid(r)
  {
    match act
    case Bus(p) => v.(sys := P.Step(v.sys, c, p))
    case Ask(req, _, _, _) =>
      var next := P.Step(v.sys, c, AskAct(act));
      v.(sys := next, heard := if |next.a.accepted| > |v.sys.a.accepted| then |v.sys.a.inds| else v.heard)
    case Serve(w, _, _, _, _) =>
      if !Waiting(v) || !Possible(v.sys.b.inds[|v.log|].data, w) then v
      else
        var e := Served(v, act);
        Conv(if e.reply == [] then v.sys else P.Step(v.sys, c, ReplyAct(e.reply, act)), After(e), v.log + [e], v.heard)
    case Server(srv) => v.(srv := srv)
  }

  /** testerPresentSuppressed: the one request for which the client expects no response. */
  predicate Silent(req: Bytes) { req == [0x3E, 0x80] }

  /**
   * The client may ask: it expects no response to its last request, or has received one since, or the server is done
   * and nothing is on its way.
   */
  ghost predicate MayAsk(v: Conv) {
    || (v.sys.a.accepted != [] && Silent(v.sys.a.accepted[|v.sys.a.accepted| - 1]))
    || |v.sys.a.inds| > v.heard
    || (|v.log| == |v.sys.a.accepted| && |v.sys.a.inds| == |v.sys.b.accepted|)
  }

  /** No timeout of either link, messages that fit the peer's buffer, and a client that waits. */
  ghost predicate Legal(v: Conv, c: P.Configs, act: Act)
    requires Valid(v)
  {
    match act
    case Bus(p) =>
      var r := P.Step(v.sys, c, p);
      P.Quiet(v.sys, c, p) && r.a.accepted == v.sys.a.accepted && r.b.accepted == v.sys.b.accepted
    case Ask(_, _, _, _) => MayAsk(v) && P.Quiet(v.sys, c, AskAct(act))
    case Serve(w, _, _, _, _) =>
      && Waiting(v) && Possible(v.sys.b.inds[|v.log|].data, w)
      && |Served(v, act).reply| <= |v.sys.a.rx.asm.buf|
    case Server(_) => true
  }

  ghost function Run(v: Conv, c: P.Configs, acts: seq<Act>): (r: Conv)
    requires Valid(v)
    ensures Valid(r)
    decreases |acts|
  {
    if acts == [] then v else Run(Step(v, c, acts[0]), c, acts[1..])
  }

  ghost predicate LegalRun(v: Conv, c: P.Configs, acts: seq<Act>)
    requires Valid(v)
    decreases |acts|
  {
    acts == [] || (Legal(v, c, acts[0]) && LegalRun(Step(v, c, acts[0]), c, acts[1..]))
  }

  // ---------------------------------------------------------------------------------------------
  // The invariant
  // ---------------------------------------------------------------------------------------------

  /** The exchanges in which the server sent something back. */
  ghost function Answered(log: seq<Exchange>): (r: seq<Exchange>)
    ensures forall e :: e in r ==> e in log && e.reply != []
    decreases |log|
  {
    if log == [] then []
    else
      var last := log[|log| - 1];
      Answered(log[..|log| - 1]) + (if last.reply == [] then [] else [last])
  }

  lemma AnsweredMore(log: seq<Exchange>, e: Exchange)
    ensures Answered(log + [e]) == Answered(log) + (if e.reply == [] then [] else [e])
  {
    assert (log + [e])[..|log|] == log;
  }

  ghost predicate Right(e: Exchange) {
    Possible(e.req, e.world)
    && e.reply == Process(e.srv, e.world, e.now, e.req, false, DiagApp.BUFFER_SIZE).1
  }

  ghost predicate AllServed(log: seq<Exchange>, asked: seq<Bytes>) {
    |log| <= |asked| && forall i :: 0 <= i < |log| ==> Right(log[i]) && log[i].req == asked[i]
  }

  /** The replies are the messages the server's link accepted. */
  ghost predicate AllSent(log: seq<Exchange>, sent: seq<Bytes>) {
    |sent| == |Answered(log)| && forall k :: 0 <= k < |sent| ==> sent[k] == Answered(log)[k].reply
  }

  /**
   * Of the requests not yet served only the last one can have a response, and while one is not served no reply is on
   * its way.
   */
  ghost predicate OneAtATime(asked: seq<Bytes>, served: nat, sent: nat, received: nat, heard: nat) {
    && served <= |asked| && heard <= received <= sent <= heard + 1
    && (sent == heard + 1 ==> served == |asked| > 0 && !Silent(asked[|asked| - 1]))
    && (forall i :: served <= i < |asked| - 1 ==> Silent(asked[i]))
  }

  /** A reply that is on its way, or was heard since the client last asked, belongs to the newest exchange. */
  ghost predicate Newest(log: seq<Exchange>, sent: nat, heard: nat) {
    sent > heard ==> log != [] && log[|log| - 1].reply != []
  }

  ghost predicate Inv(v: Conv, c: P.Configs) {
    && Valid(v) && P.Inv(v.sys, c) && |v.sys.b.tx.buf| >= DiagApp.BUFFER_SIZE
    && AllServed(v.log, v.sys.a.accepted) && AllSent(v.log, v.sys.b.accepted)
    && OneAtATime(v.sys.a.accepted, |v.log|, |v.sys.b.accepted|, |v.sys.a.inds|, v.heard)
    && Newest(v.log, |v.sys.b.accepted|, v.heard)
  }

  /** A sender all of whose messages were indicated is idle. */
  lemma AllOutIsIdle(s: S.Session, c: S.Setup)
    requires S.Inv(s, c) && |s.inds| >= |s.accepted|
    ensures !s.tx.Busy()
  {
    hide S.Match, S.Credit, S.Ahead;
    var v := S.Ahead(s.rx.asm, c.rcfg.blockSize, s.dataQ);
    assert |s.inds| + |v.inds| == |S.Finished(s)|;
  }

  lemma Delivered(s: P.System, c: P.Configs)
    requires P.Inv(s, c)
    ensures P.Delivered(s.b.inds, s.a.accepted) && P.Delivered(s.a.inds, s.b.accepted)
  {
    hide S.Inv, P.Delivered;
    P.SessionDelivered(P.FromA(s), P.SetupA(c));
    P.SessionDelivered(P.FromB(s), P.SetupB(c));
  }

  /** One step of the links: indications are only added, and a message is accepted only by its Transmit. */
  lemma StepGrows(s: P.System, c: P.Configs, act: P.Act)
    requires P.Valid(s)
    ensures var r := P.Step(s, c, act);
      && |s.a.inds| <= |r.a.inds| && |s.b.tx.buf| == |r.b.tx.buf|
      && |s.a.accepted| <= |r.a.accepted| && |s.b.accepted| <= |r.b.accepted|
  {
    hide TxStep, RxStep;
  }

  lemma AskStep(s: P.System, c: P.Configs, act: Act)
    requires P.Valid(s) && act.Ask?
    ensures var r := P.Step(s, c, AskAct(act));
      && r.b == s.b && r.a.inds == s.a.inds
      && r.a.accepted == if TransmitResult(s.a.tx, act.req) == Ok then s.a.accepted + [act.req] else s.a.accepted
  {
    hide TxStep, TransmitResult;
  }

  lemma ReplyStep(s: P.System, c: P.Configs, reply: Bytes, act: Act)
    requires P.Valid(s) && act.Serve?
    ensures var r := P.Step(s, c, ReplyAct(reply, act));
      && r.a == s.a && r.b.inds == s.b.inds && |r.b.tx.buf| == |s.b.tx.buf|
      && r.b.accepted == if TransmitResult(s.b.tx, reply) == Ok then s.b.accepted + [reply] else s.b.accepted
  {
    hide TxStep, TransmitResult;
  }

  /** The server never finds its link busy: the reply to the open request is always accepted. */
  lemma ServerIsFree(v: Conv, c: P.Configs)
    requires Inv(v, c) && |v.log| < |v.sys.b.inds|
    ensures |v.log| < |v.sys.a.accepted| && |v.sys.a.inds| == |v.sys.b.accepted| == v.heard
    ensures |v.log| + 1 < |v.sys.a.accepted| ==> Silent(v.sys.a.accepted[|v.log|])
    ensures Waiting(v) && v.sys.b.inds[|v.log|].data == v.sys.a.accepted[|v.log|]
    ensures forall reply: Bytes :: 1 <= |reply| <= DiagApp.BUFFER_SIZE ==> TransmitResult(v.sys.b.tx, reply) == Ok
  {
    Delivered(v.sys, c);
    hide S.Inv, C.Count, AllServed, AllSent;
    AllOutIsIdle(P.FromB(v.sys), P.SetupB(c));
  }

  lemma ServedMore(log: seq<Exchange>, asked: seq<Bytes>, e: Exchange)
    requires AllServed(log, asked) && |log| < |asked| && Right(e) && e.req == asked[|log|]
    ensures AllServed(log + [e], asked)
  {
    hide Right;
  }

  lemma SentMore(log: seq<Exchange>, sent: seq<Bytes>, e: Exchange)
    requires AllSent(log, sent)
    ensures AllSent(log + [e], if e.reply == [] then sent else sent + [e.reply])
  {
    AnsweredMore(log, e);
  }

  lemma NotSilent(e: Exchange)
    requires Right(e) && e.reply != []
    ensures !Silent(e.req)
  {
    hide Fits;
  }

  lemma ServeKeepsInv(v: Conv, c: P.Configs, act: Act)
    requires Inv(v, c) && act.Serve? && Legal(v, c, act)
    ensures Inv(Step(v, c, act), c)
  {
    hide P.Inv, P.Valid, P.Step, P.Quiet, Process, Possible, AllServed, AllSent, TransmitResult;
    ServerIsFree(v, c);
    var e := Served(v, act);
    ReplyLength(e);
    ServedMore(v.log, v.sys.a.accepted, e);
    SentMore(v.log, v.sys.b.accepted, e);
    if e.reply != [] {
      assert 1 <= |e.reply|;
      NotSilent(e);
      ReplyStep(v.sys, c, e.reply, act);
      ReplyIsQuiet(v.sys, c, e.reply, act);
      P.InvStep(v.sys, c, ReplyAct(e.reply, act));
    }
  }

  lemma ReplyIsQuiet(s: P.System, c: P.Configs, reply: Bytes, act: Act)
    requires act.Serve? && |reply| <= |s.a.rx.asm.buf|
    ensures P.Quiet(s, c, ReplyAct(reply, act))
  {}

  lemma ReplyLength(e: Exchange)
    requires Right(e)
    ensures |e.reply| <= DiagApp.BUFFER_SIZE
  {
    hide Process;
    ReplyFits(e.srv, e.world, e.now, e.req, false, DiagApp.BUFFER_SIZE);
  }

  lemma AskKeepsInv(v: Conv, c: P.Configs, act: Act)
    requires Inv(v, c) && act.Ask? && Legal(v, c, act)
    ensures Inv(Step(v, c, act), c)
  {
    hide P.Inv, P.Step, P.Quiet, Right, AllSent, TransmitResult;
    AskStep(v.sys, c, act);
    P.InvStep(v.sys, c, AskAct(act));
  }

  lemma BusKeepsInv(v: Conv, c: P.Configs, act: Act)
    requires Inv(v, c) && act.Bus? && Legal(v, c, act)
    ensures Inv(Step(v, c, act), c)
  {
    hide P.Inv, P.Step, P.Quiet, Right, AllSent, AllServed;
    P.InvStep(v.sys, c, act.act);
    StepGrows(v.sys, c, act.act);
    Delivered(P.Step(v.sys, c, act.act), c);
  }

  lemma {:induction false} InvStep(v: Conv, c: P.Configs, act: Act)
    requires Inv(v, c) && Legal(v, c, act)
    ensures Inv(Step(v, c, act), c)
  {
    if act.Bus? { BusKeepsInv(v, c, act); }
    else if act.Ask? { AskKeepsInv(v, c, act); }
    else if act.Serve? { ServeKeepsInv(v, c, act); }
    hide *;
  }

  lemma {:induction false} RunInv(v: Conv, c: P.Configs, acts: seq<Act>)
    requires Inv(v, c) && LegalRun(v, c, acts)
    ensures Inv(Run(v, c, acts), c)
    decreases |acts|
  {
    hide P.Inv, Step, Legal, AllServed, AllSent, OneAtATime, Newest;
    if acts != [] {
      InvStep(v, c, acts[0]);
      RunInv(Step(v, c, acts[0]), c, acts[1..]);
    }
  }

  ghost function Idle(aTx: Buffer, aRx: Buffer, bTx: Buffer, bRx: Buffer, srv: Srv): Conv {
    Conv(P.Start(P.IdleNode(aTx, aRx), P.IdleNode(bTx, bRx)), srv, [], 0)
  }

  /** Two links after IsoTp_Init, the server's buffer as large as its response buffer, and any legal run. */
  ghost predicate Reachable(v: Conv, c: P.Configs) {
    exists aTx: Buffer, aRx: Buffer, bTx: Buffer, bRx: Buffer, srv: Srv, acts: seq<Act> ::
      && |bTx| >= DiagApp.BUFFER_SIZE && LegalRun(Idle(aTx, aRx, bTx, bRx, srv), c, acts)
      && v == Run(Idle(aTx, aRx, bTx, bRx, srv), c, acts)
  }

  lemma ReachableInv(v: Conv, c: P.Configs)
    requires Reachable(v, c)
    ensures Inv(v, c)
  {
    hide P.Inv, Run, LegalRun;
    var aTx: Buffer, aRx: Buffer, bTx: Buffer, bRx: Buffer, srv: Srv, acts: seq<Act> :|
      && |bTx| >= DiagApp.BUFFER_SIZE && LegalRun(Idle(aTx, aRx, bTx, bRx, srv), c, acts)
      && v == Run(Idle(aTx, aRx, bTx, bRx, srv), c, acts);
    P.StartInv(aTx, aRx, bTx, bRx, c);
    RunInv(Idle(aTx, aRx, bTx, bRx, srv), c, acts);
  }

  // ---------------------------------------------------------------------------------------------
  // Every response is the reply to its request
  // ---------------------------------------------------------------------------------------------

  /**
   * In every reachable conversation the server has served the client's requests in order and unaltered, its link
   * has taken every reply, and what the client received are these replies in order, each at most once. What it
   * received since it last asked is the reply to the request it last made.
   */
  lemma EveryExchange(v: Conv, c: P.Configs)
    requires Reachable(v, c)
    ensures AllServed(v.log, v.sys.a.accepted) && AllSent(v.log, v.sys.b.accepted)
    ensures |v.sys.a.inds| <= |Answered(v.log)|
    ensures forall k :: 0 <= k < |v.sys.a.inds| ==> v.sys.a.inds[k] == Ind(Answered(v.log)[k].reply, Ok)
    ensures |v.sys.a.inds| > v.heard ==> Heard(v)
  {
    hide P.Inv, AllServed, Right;
    ReachableInv(v, c);
    Delivered(v.sys, c);
    if |v.sys.a.inds| > v.heard { NewestIsHeard(v, c); }
  }

  /** The last indication at the client answers its last request. */
  ghost predicate Heard(v: Conv) {
    && v.log != [] && |v.log| == |v.sys.a.accepted| && v.sys.a.inds != []
    && var e := v.log[|v.log| - 1];
    && Right(e) && e.reply != [] && e.req == v.sys.a.accepted[|v.log| - 1]
    && v.sys.a.inds[|v.sys.a.inds| - 1] == Ind(e.reply, Ok)
  }

  lemma NewestIsHeard(v: Conv, c: P.Configs)
    requires Inv(v, c) && |v.sys.a.inds| > v.heard
    ensures Heard(v)
  {
    hide P.Inv, Right, Answered;
    Delivered(v.sys, c);
    LastAnswered(v.log);
  }

  lemma LastAnswered(log: seq<Exchange>)
    requires log != [] && log[|log| - 1].reply != []
    ensures Answered(log) != [] && Answered(log)[|Answered(log)| - 1] == log[|log| - 1]
  {}

  /** The server never asks for more time, so the client's first message is the one that counts. */
  lemma NeverPending(e: Exchange)
    requires Right(e) && e.reply != []
    ensures e.req != [] && !IsPending(e.req[0], Some(e.reply))
  {
    hide Fits;
  }

  /** What the client makes of the message it heard is what it makes of the server's answer. */
  lemma HeardIsAnswer(v: Conv)
    requires Heard(v)
    ensures var e := v.log[|v.log| - 1];
      && e.req != [] && Fits(e.world, e.req)
      && Final(e.req[0], Some(v.sys.a.inds[|v.sys.a.inds| - 1].data))
         == UdsRoundTrip.Answer(e.srv, e.world, e.now, e.req, DiagApp.BUFFER_SIZE)
  {
    hide Process, Fits, Final;
    var e := v.log[|v.log| - 1];
    if e.req == [] { EmptyIsSilent(e); }
  }

  lemma EmptyIsSilent(e: Exchange)
    requires Right(e) && e.req == []
    ensures e.reply == []
  {}

  /** What the client received since its last request, and the exchange at the server that it belongs to. */
  ghost function Response(v: Conv): Bytes
    requires Heard(v)
  {
    v.sys.a.inds[|v.sys.a.inds| - 1].data
  }

  ghost function Last(v: Conv): Exchange
    requires Heard(v)
  {
    v.log[|v.log| - 1]
  }

  lemma DidsOf(e: Exchange, specs: seq<DidSpec>)
    requires Right(e) && e.req == DidRequest(specs) && UdsRoundTrip.Agree(specs, e.world.dids)
    ensures |e.world.data| == |Known(e.world.dids, UdsRoundTrip.SpecIds(specs))|
    ensures DidResult(UdsRoundTrip.Answer(e.srv, e.world, e.now, e.req, DiagApp.BUFFER_SIZE), specs)
            == DidsSeen(e.world, specs)
  {
    hide DidResult, UdsRoundTrip.Answer, UdsRoundTrip.Agree, UdsRoundTrip.Values, Known, Space, Fits, Process,
        DidRequest;
    DidRequestLength(specs);
    UdsRoundTrip.ReadDidsRoundTrip(e.srv, e.world, e.now, specs, DiagApp.BUFFER_SIZE);
  }

  lemma DidRequestLength(specs: seq<DidSpec>)
    ensures DidRequest(specs) != [] && DidRequest(specs)[0] == 0x22
  {
    hide Hi, Lo;
    UdsRoundTrip.RequestIds(specs);
  }

  /** The known identifiers in request order with the values read for them, or the reason for none. */
  ghost function DidsSeen(w: World, specs: seq<DidSpec>): Outcome<seq<DidValue>>
    requires |w.data| == |Known(w.dids, UdsRoundTrip.SpecIds(specs))|
  {
    var known := Known(w.dids, UdsRoundTrip.SpecIds(specs));
    if specs == [] then Failure(UdsClient.Negative(0x13))
    else if known == [] then Failure(UdsClient.Negative(0x31))
    else if 1 + Space(w.dids, known) > DiagApp.BUFFER_SIZE then Failure(UdsClient.Negative(0x14))
    else Success(UdsRoundTrip.Values(known, w.data))
  }

  /** A completed readDids, in every reachable conversation. */
  lemma ReadDidsOverTheBus(v: Conv, c: P.Configs, specs: seq<DidSpec>)
    requires Reachable(v, c) && |v.sys.a.inds| > v.heard
    requires v.sys.a.accepted != [] && v.sys.a.accepted[|v.sys.a.accepted| - 1] == DidRequest(specs)
    ensures Heard(v)
    ensures UdsRoundTrip.Agree(specs, Last(v).world.dids) ==>
      && |Last(v).world.data| == |Known(Last(v).world.dids, UdsRoundTrip.SpecIds(specs))|
      && DidResult(Final(0x22, Some(Response(v))), specs) == DidsSeen(Last(v).world, specs)
  {
    hide Right, Fits, Final, DidResult, DidsSeen, UdsRoundTrip.Answer, UdsRoundTrip.Agree, Known, DidRequest, Reachable,
      P.Valid, AllServed, AllSent;
    EveryExchange(v, c);
    HeardIsAnswer(v);
    DidRequestLength(specs);
    if UdsRoundTrip.Agree(specs, Last(v).world.dids) { DidsOf(Last(v), specs); }
  }

  /** At most sixteen records of four bytes fit behind the header, so nothing is refused or cut off. */
  lemma DtcsOf(e: Exchange, mask: u8)
    requires Right(e) && e.req == [0x19, 2, mask]
    ensures |e.world.copied| <= |e.world.table| <= MAX_ENTRIES
    ensures DtcResult(UdsRoundTrip.Answer(e.srv, e.world, e.now, e.req, DiagApp.BUFFER_SIZE))
            == Success(UdsRoundTrip.Matching(e.world.table, e.world.copied, mask as bv8))
  {
    hide DtcResult, UdsRoundTrip.Answer, UdsRoundTrip.Matching, MatchCount, Answers, Process;
    assert Room(DiagApp.BUFFER_SIZE) == 63;
    UdsRoundTrip.ReadDtcsRoundTrip(e.srv, e.world, e.now, mask, DiagApp.BUFFER_SIZE);
  }

  /** A completed readDtcs, in every reachable conversation: all codes that matched when they were copied. */
  lemma ReadDtcsOverTheBus(v: Conv, c: P.Configs, mask: u8)
    requires Reachable(v, c) && |v.sys.a.inds| > v.heard
    requires v.sys.a.accepted != [] && v.sys.a.accepted[|v.sys.a.accepted| - 1] == [0x19, 2, mask]
    ensures Heard(v) && |Last(v).world.copied| <= |Last(v).world.table| <= MAX_ENTRIES
    ensures DtcResult(Final(0x19, Some(Response(v))))
            == Success(UdsRoundTrip.Matching(Last(v).world.table, Last(v).world.copied, mask as bv8))
  {
    hide Right, Fits, Final, DtcResult, UdsRoundTrip.Answer, UdsRoundTrip.Matching, Reachable, P.Valid;
    EveryExchange(v, c);
    HeardIsAnswer(v);
    DtcsOf(Last(v), mask);
  }

  // ---------------------------------------------------------------------------------------------
  // Every request can be answered
  // ---------------------------------------------------------------------------------------------

  ghost function Buses(acts: seq<P.Act>): (r: seq<Act>)
    ensures forall i :: 0 <= i < |r| ==> r[i].Bus?
  {
    if acts == [] then [] else [Bus(acts[0])] + Buses(acts[1..])
  }

  lemma {:induction false} RunGrows(s: P.System, c: P.Configs, acts: seq<P.Act>)
    requires P.Valid(s)
    ensures var r := P.Run(s, c, acts);
      s.a.accepted <= r.a.accepted && s.b.accepted <= r.b.accepted && |s.a.rx.asm.buf| == |r.a.rx.asm.buf|
    decreases |acts|
  {
    hide P.Step;
    if acts != [] {
      StepExtends(s, c, acts[0]);
      RunGrows(P.Step(s, c, acts[0]), c, acts[1..]);
    }
  }

  lemma StepExtends(s: P.System, c: P.Configs, act: P.Act)
    requires P.Valid(s)
    ensures var r := P.Step(s, c, act);
      s.a.accepted <= r.a.accepted && s.b.accepted <= r.b.accepted && |s.a.rx.asm.buf| == |r.a.rx.asm.buf|
  {
    hide TxStep, RxStep;
  }

  /** A run of the links in which no message starts, as a run of the conversation. */
  lemma {:induction false} BusRun(v: Conv, c: P.Configs, acts: seq<P.Act>)
    requires Valid(v) && P.QuietRun(v.sys, c, acts)
    requires var r := P.Run(v.sys, c, acts); r.a.accepted == v.sys.a.accepted && r.b.accepted == v.sys.b.accepted
    ensures LegalRun(v, c, Buses(acts)) && Run(v, c, Buses(acts)) == v.(sys := P.Run(v.sys, c, acts))
    decreases |acts|
  {
    hide P.Step, P.Quiet;
    if acts != [] {
      var next := P.Step(v.sys, c, acts[0]);
      StepExtends(v.sys, c, acts[0]);
      RunGrows(next, c, acts[1..]);
      assert Buses(acts)[1..] == Buses(acts[1..]);
      BusRun(v.(sys := next), c, acts[1..]);
    }
  }

  lemma Nothing(v: Conv, c: P.Configs)
    requires Valid(v)
    ensures LegalRun(v, c, []) && Run(v, c, []) == v
  {}

  lemma {:induction false} RunThen(v: Conv, c: P.Configs, a: seq<Act>, b: seq<Act>)
    requires Valid(v) && LegalRun(v, c, a) && LegalRun(Run(v, c, a), c, b)
    ensures LegalRun(v, c, a + b) && Run(v, c, a + b) == Run(Run(v, c, a), c, b)
    decreases |a|
  {
    hide Step, Legal;
    if a == [] { assert a + b == b; }
    else {
      assert (a + b)[1..] == a[1..] + b && (a + b)[0] == a[0];
      RunThen(Step(v, c, a[0]), c, a[1..], b);
    }
  }

  /** Both links can finish what they started without a timeout and without starting a message. */
  lemma Settle(v: Conv, c: P.Configs) returns (acts: seq<Act>)
    requires Inv(v, c)
    ensures LegalRun(v, c, acts) && forall i :: 0 <= i < |acts| ==> acts[i].Bus?
    ensures var r := Run(v, c, acts);
      && Inv(r, c) && P.Complete(r.sys, c) && r == v.(sys := r.sys)
      && r.sys.a.accepted == v.sys.a.accepted && r.sys.b.accepted == v.sys.b.accepted
      && |r.sys.a.rx.asm.buf| == |v.sys.a.rx.asm.buf|
  {
    hide P.Inv, P.Run, P.QuietRun, P.Complete, Run, LegalRun, AllServed, AllSent;
    var ps := P.Completes(v.sys, c);
    RunGrows(v.sys, c, ps);
    BusRun(v, c, ps);
    acts := Buses(ps);
    RunInv(v, c, acts);
  }

  /** A world for a request that reads no identifiers. */
  ghost predicate Plain(w: World) {
    |w.counted| <= |w.table| <= MAX_ENTRIES && |w.copied| <= |w.table| && w.data == []
  }

  /** The server's next request is a suppressed testerPresent with more behind it: it is served without a trace. */
  lemma ServeSilent(v: Conv, c: P.Configs, act: Act)
    requires Inv(v, c) && P.Complete(v.sys, c) && |v.log| + 1 < |v.sys.a.accepted|
    requires act.Serve? && Plain(act.world) && act.now == v.srv.lastRequest
    ensures Legal(v, c, act) && Inv(Step(v, c, act), c)
    ensures var r := Step(v, c, act);
      |r.log| == |v.log| + 1 && r == v.(log := r.log) && r.log[|v.log|].req == [0x3E, 0x80]
  {
    hide P.Inv, P.Step, P.Quiet, AllServed, AllSent, TransmitResult, C.TotalData, C.TotalFc, Process, Plain;
    ServerIsFree(v, c);
    SilentlyServed(v.srv, v.sys.a.accepted[|v.log|], act.world);
    ServeKeepsInv(v, c, act);
  }

  lemma SilentlyServed(s: Srv, req: Bytes, w: World)
    requires Silent(req) && Plain(w)
    ensures Possible(req, w) && Process(s, w, s.lastRequest, req, false, DiagApp.BUFFER_SIZE) == (s, [])
  {
    assert Ids(req[1..]) == [];
    assert Known(w.dids, []) == [];
    hide Ids, Known;
  }

  lemma {:induction false} ServeSilents(v: Conv, c: P.Configs) returns (acts: seq<Act>)
    requires Inv(v, c) && P.Complete(v.sys, c) && |v.log| < |v.sys.a.accepted|
    ensures LegalRun(v, c, acts)
    ensures var r := Run(v, c, acts); Inv(r, c) && |r.log| + 1 == |v.sys.a.accepted| && r == v.(log := r.log)
    decreases |v.sys.a.accepted| - |v.log|
  {
    hide P.Inv, P.Complete, AllServed, AllSent, OneAtATime, Newest, Step, Legal;
    acts := [];
    if |v.log| + 1 < |v.sys.a.accepted| {
      var act := Serve(World([], [], [], [], []), v.srv.lastRequest, 0, true, 0);
      ServeSilent(v, c, act);
      var rest := ServeSilents(Step(v, c, act), c);
      acts := [act] + rest;
    }
  }

  /**
   * The last request can be answered from every reachable conversation in which it is still open: for whatever world
   * the server meets, some continuation without timeouts ends with exactly its reply at the client.
   */
  lemma AnswerCanArrive(v: Conv, c: P.Configs, w: World, now: u32) returns (acts: seq<Act>)
    requires Reachable(v, c) && |v.log| < |v.sys.a.accepted| && Possible(v.sys.a.accepted[|v.sys.a.accepted| - 1], w)
    requires 1 <= |ReplyTo(v, w, now)| <= |v.sys.a.rx.asm.buf|
    ensures LegalRun(v, c, acts)
    ensures var r := Run(v, c, acts); var req := v.sys.a.accepted[|v.sys.a.accepted| - 1];
      && |r.sys.a.inds| > r.heard && Heard(r) && r.sys.a.accepted == v.sys.a.accepted
      && Last(r) == Exchange(v.srv, w, now, req, ReplyTo(v, w, now))
      && Response(r) == ReplyTo(v, w, now)
  {
    hide P.Inv, P.Complete, Run, LegalRun, Process, Possible, AllServed, AllSent, Step, Reachable, OneAtATime, Newest,
      Right;
    ReachableInv(v, c);
    var first := Settle(v, c);
    var there := Run(v, c, first);
    var silent := ServeSilents(there, c);
    RunThen(v, c, first, silent);
    var ready := Run(there, c, silent);
    var serve := Serve(w, now, 0, true, 0);
    RequestIsThere(ready, c, serve);
    var served := Step(ready, c, serve);
    var second := Settle(served, c);
    ReplyIsThere(Run(served, c, second), c);
    Single(ready, c, serve);
    RunThen(ready, c, [serve], second);
    RunThen(v, c, first + silent, [serve] + second);
    acts := (first + silent) + ([serve] + second);
  }

  /** What the server answers to the last request if it meets the world w. */
  ghost function ReplyTo(v: Conv, w: World, now: u32): Bytes
    requires v.sys.a.accepted != [] && Possible(v.sys.a.accepted[|v.sys.a.accepted| - 1], w)
  {
    Process(v.srv, w, now, v.sys.a.accepted[|v.sys.a.accepted| - 1], false, DiagApp.BUFFER_SIZE).1
  }

  lemma Single(v: Conv, c: P.Configs, act: Act)
    requires Valid(v) && Legal(v, c, act)
    ensures LegalRun(v, c, [act]) && Run(v, c, [act]) == Step(v, c, act)
  {
    hide Legal, Step;
    assert [act][1..] == [];
  }

  /** Once the links have settled, the open request can be served, and the reply starts. */
  lemma RequestIsThere(v: Conv, c: P.Configs, act: Act)
    requires Inv(v, c) && P.Complete(v.sys, c) && |v.log| + 1 == |v.sys.a.accepted| && act.Serve?
    requires Possible(v.sys.a.accepted[|v.log|], act.world)
    requires 1 <= |ReplyTo(v, act.world, act.now)| <= |v.sys.a.rx.asm.buf|
    ensures Legal(v, c, act) && Inv(Step(v, c, act), c)
    ensures var r := Step(v, c, act);
      var reply := ReplyTo(v, act.world, act.now);
      && r.log == v.log + [Exchange(v.srv, act.world, act.now, v.sys.a.accepted[|v.log|], reply)]
      && |r.sys.b.accepted| == r.heard + 1 && r.sys.a.accepted == v.sys.a.accepted
  {
    hide P.Inv, P.Step, P.Quiet, Process, Possible, AllServed, AllSent, TransmitResult, C.TotalData, C.TotalFc;
    ServerIsFree(v, c);
    var e := Served(v, act);
    ReplyLength(e);
    ReplyStep(v.sys, c, e.reply, act);
    ServeKeepsInv(v, c, act);
  }

  /** Once the links have settled, a reply that was sent has been heard. */
  lemma ReplyIsThere(v: Conv, c: P.Configs)
    requires Inv(v, c) && P.Complete(v.sys, c) && |v.sys.b.accepted| == v.heard + 1
    ensures |v.sys.a.inds| > v.heard && Heard(v) && Response(v) == v.log[|v.log| - 1].reply
  {
    hide P.Inv, AllServed, AllSent, OneAtATime, Newest, C.TotalData, C.TotalFc, Right;
    NewestIsHeard(v, c);
  }
}
