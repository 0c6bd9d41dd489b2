/**
 * Two links talking to each other over two lossless FIFO channels, both directions at once.
 *
 * Each channel mixes the data frames of one direction with the flow control frames of the other. A system
 * is therefore two sessions (IsoTpSession.dfy) at the same time, and every action of the system is an
 * action of one of them that leaves the other one unchanged.
 */
module IsoTpPair {
  import opened Words
  import opened IsoTpModel
  import IsoTpSender
  import S = IsoTpSession
  import P = IsoTpProgress
  import C = IsoTpCost

  datatype Node = Node(tx: Tx, rx: Rx, accepted: seq<seq<u8>>, inds: seq<Ind>)

  /** `ab`, `ba`: frames in flight; `logAb`, `logBa`: all frames ever put on the channel. */
  datatype System = System(a: Node, b: Node, ab: seq<Frame>, ba: seq<Frame>, logAb: seq<Frame>, logBa: seq<Frame>)

  datatype Configs = Configs(a: Cfg, b: Cfg)

  /** What one node can do. Delivery takes the next frame of the incoming channel, whatever its type. */
  datatype NodeAct =
    | Send(tact: TxAct)
    | Poll(ract: RxAct)
    | Deliver(now: u32, accept: bool)

  datatype Act = AtA(act: NodeAct) | AtB(act: NodeAct)

  ghost function Swap(s: System): System { System(s.b, s.a, s.ba, s.ab, s.logBa, s.logAb) }

  ghost function SwapCfg(c: Configs): Configs { Configs(c.b, c.a) }

  ghost predicate Valid(s: System) { s.a.tx.Valid() && s.a.rx.Valid() && s.b.tx.Valid() && s.b.rx.Valid() }

  ghost function Put(s: System, frames: seq<Frame>): System {
    s.(ab := s.ab + frames, logAb := s.logAb + frames)
  }

  /** IsoTp_RxFrame at node A: flow control goes to the sender half, everything else to the receiver half. */
  ghost function Take(s: System, c: Configs, now: u32, accept: bool): (r: System)
    requires Valid(s) && s.ba != []
    ensures Valid(r)
  {
    var rest := s.(ba := s.ba[1..]);
    if Pci(s.ba[0]) == 3 then rest.(a := s.a.(tx := TxStep(s.a.tx, c.a.nBs, Fc(s.ba[0], CAN_DL, now)).tx))
    else
      var o := RxStep(s.a.rx, c.a, Data(s.ba[0], CAN_DL, now, accept));
      Put(rest.(a := s.a.(rx := o.rx, inds := s.a.inds + o.inds)), o.sent)
  }

  ghost function StepA(s: System, c: Configs, act: NodeAct): (r: System)
    requires Valid(s)
    ensures Valid(r)
  {
    match act
    case Send(t) =>
      if t.Fc? then s
      else
        var o := TxStep(s.a.tx, c.a.nBs, t);
        var accepted := if IsoTpSender.Starts(s.a.tx, t) then s.a.accepted + [t.msg] else s.a.accepted;
        Put(s.(a := s.a.(tx := o.tx, accepted := accepted)), o.sent)
    case Poll(r) =>
      if r.Data? then s
      else
        var o := RxStep(s.a.rx, c.a, r);
        Put(s.(a := s.a.(rx := o.rx, inds := s.a.inds + o.inds)), o.sent)
    case Deliver(now, accept) => if s.ba == [] then s else Take(s, c, now, accept)
  }

  ghost function Step(s: System, c: Configs, act: Act): (r: System)
    requires Valid(s)
    ensures Valid(r)
  {
    match act
    case AtA(n) => StepA(s, c, n)
    case AtB(n) => Swap(StepA(Swap(s), SwapCfg(c), n))
  }

  /** No timer of node A expires in this action, and a message it accepts fits the buffer of node B. */
  ghost predicate QuietA(s: System, c: Configs, act: NodeAct) {
    match act
    case Send(t) => S.TxQuiet(s.a.tx, c.a.nBs, t) && (IsoTpSender.Starts(s.a.tx, t) ==> |t.msg| <= |s.b.rx.asm.buf|)
    case Poll(r) => S.RxQuiet(s.a.rx, c.a.nCr, r)
    case Deliver(_, _) => true
  }

  ghost predicate Quiet(s: System, c: Configs, act: Act) {
    match act
    case AtA(n) => QuietA(s, c, n)
    case AtB(n) => QuietA(Swap(s), SwapCfg(c), n)
  }

  ghost function Run(s: System, c: Configs, acts: seq<Act>): (r: System)
    requires Valid(s)
    ensures Valid(r)
    decreases |acts|
  {
    if acts == [] then s else Run(Step(s, c, acts[0]), c, acts[1..])
  }

  ghost predicate QuietRun(s: System, c: Configs, acts: seq<Act>)
    requires Valid(s)
    decreases |acts|
  {
    acts == [] || (Quiet(s, c, acts[0]) && QuietRun(Step(s, c, acts[0]), c, acts[1..]))
  }

  ghost function IdleNode(txBuf: Buffer, rxBuf: Buffer): (n: Node)
    ensures n.tx.Valid() && n.rx.Valid()
  {
    Node(IdleTx(txBuf), IdleRx(rxBuf), [], [])
  }

  ghost function Start(a: Node, b: Node): System { System(a, b, [], [], [], []) }

  // ---------------------------------------------------------------------------------------------
  // Two sessions
  // ---------------------------------------------------------------------------------------------

  ghost function DataOf(q: seq<Frame>): seq<Frame> {
    if q == [] then [] else (if Pci(q[0]) == 3 then [] else [q[0]]) + DataOf(q[1..])
  }

  ghost function FcOf(q: seq<Frame>): seq<Frame> {
    if q == [] then [] else (if Pci(q[0]) == 3 then [q[0]] else []) + FcOf(q[1..])
  }

  lemma Assoc<T>(a: seq<T>, b: seq<T>, c: seq<T>)
    ensures a + (b + c) == (a + b) + c
  {}

  lemma {:induction false} DataAppend(q: seq<Frame>, r: seq<Frame>)
    ensures DataOf(q + r) == DataOf(q) + DataOf(r)
    decreases |q|
  {
    if q == [] { assert q + r == r; }
    else {
      hide Pci;
      DataAppend(q[1..], r);
      assert (q + r)[1..] == q[1..] + r && (q + r)[0] == q[0];
      Assoc(if Pci(q[0]) == 3 then [] else [q[0]], DataOf(q[1..]), DataOf(r));
    }
  }

  lemma {:induction false} FcAppend(q: seq<Frame>, r: seq<Frame>)
    ensures FcOf(q + r) == FcOf(q) + FcOf(r)
    decreases |q|
  {
    if q == [] { assert q + r == r; }
    else {
      hide Pci;
      FcAppend(q[1..], r);
      assert (q + r)[1..] == q[1..] + r && (q + r)[0] == q[0];
      Assoc(if Pci(q[0]) == 3 then [q[0]] else [], FcOf(q[1..]), FcOf(r));
    }
  }

  lemma DataJoins(q: seq<Frame>, f: seq<Frame>)
    requires DataOf(f) == f && FcOf(f) == []
    ensures DataOf(q + f) == DataOf(q) + f && FcOf(q + f) == FcOf(q)
  {
    DataAppend(q, f);
    FcAppend(q, f);
  }

  lemma FcJoins(q: seq<Frame>, f: seq<Frame>)
    requires FcOf(f) == f && DataOf(f) == []
    ensures FcOf(q + f) == FcOf(q) + f && DataOf(q + f) == DataOf(q)
  {
    DataAppend(q, f);
    FcAppend(q, f);
  }

  lemma {:induction false} SplitLength(q: seq<Frame>)
    ensures |DataOf(q)| + |FcOf(q)| == |q|
    decreases |q|
  {
    if q != [] { SplitLength(q[1..]); }
  }

  /** The session in which node A sends and node B receives. */
  ghost function FromA(s: System): S.Session {
    S.Session(s.a.tx, s.b.rx, DataOf(s.ab), FcOf(s.ba), s.a.accepted, s.b.inds, |DataOf(s.logAb)|, |FcOf(s.logBa)|)
  }

  /** The session in which node B sends and node A receives. */
  ghost function FromB(s: System): S.Session { FromA(Swap(s)) }

  ghost function SetupA(c: Configs): S.Setup { S.Setup(c.a.nBs, c.b) }

  ghost function SetupB(c: Configs): S.Setup { SetupA(SwapCfg(c)) }

  lemma TxSendsData(tx: Tx, nBs: u16, act: TxAct)
    requires tx.Valid()
    ensures var f := TxStep(tx, nBs, act).sent; DataOf(f) == f && FcOf(f) == []
  {
    var o := TxStep(tx, nBs, act);
    assert |o.sent| <= 1;
    if o.sent != [] { assert o.sent[1..] == []; }
  }

  lemma RxSendsFc(rx: Rx, cfg: Cfg, act: RxAct)
    requires rx.Valid()
    ensures var f := RxStep(rx, cfg, act).sent; FcOf(f) == f && DataOf(f) == []
  {
    hide AsmStep;
    var o := RxStep(rx, cfg, act);
    assert |o.sent| <= 1;
    if o.sent != [] { assert o.sent[1..] == []; }
  }


  lemma SendIsSession(s: System, c: Configs, t: TxAct)
    requires Valid(s)
    ensures FromA(StepA(s, c, Send(t))) == S.Step(FromA(s), SetupA(c), S.Send(t))
    ensures FromB(StepA(s, c, Send(t))) == FromB(s)
  {
    if !t.Fc? {
      TxSendsData(s.a.tx, c.a.nBs, t);
      var f := TxStep(s.a.tx, c.a.nBs, t).sent;
      DataJoins(s.ab, f);
      DataJoins(s.logAb, f);
      hide TxStep, DataOf, FcOf;
    }
  }

  lemma PollIsSession(s: System, c: Configs, r: RxAct)
    requires Valid(s)
    ensures FromB(StepA(s, c, Poll(r))) == S.Step(FromB(s), SetupB(c), S.Poll(r))
    ensures FromA(StepA(s, c, Poll(r))) == FromA(s)
  {
    hide RxStep, DataOf, FcOf, Rx.Valid, Tx.Valid;
    if !r.Data? {
      RxSendsFc(s.a.rx, c.a, r);
      var f := RxStep(s.a.rx, c.a, r).sent;
      FcJoins(s.ab, f);
      FcJoins(s.logAb, f);
    }
  }

  lemma TakeFcIsSession(s: System, c: Configs, now: u32, accept: bool)
    requires Valid(s) && s.ba != [] && Pci(s.ba[0]) == 3
    ensures FromA(StepA(s, c, Deliver(now, accept))) == S.Step(FromA(s), SetupA(c), S.DeliverFc(now))
    ensures FromB(StepA(s, c, Deliver(now, accept))) == FromB(s)
  {
    hide TxStep;
  }

  lemma HeadSplit(q: seq<Frame>)
    requires q != []
    ensures Pci(q[0]) == 3 ==> FcOf(q) == [q[0]] + FcOf(q[1..]) && DataOf(q) == DataOf(q[1..])
    ensures Pci(q[0]) != 3 ==> DataOf(q) == [q[0]] + DataOf(q[1..]) && FcOf(q) == FcOf(q[1..])
  {}

  lemma TakeDataIsSession(s: System, c: Configs, now: u32, accept: bool)
    requires Valid(s) && s.ba != [] && Pci(s.ba[0]) != 3
    ensures FromB(StepA(s, c, Deliver(now, accept))) == S.Step(FromB(s), SetupB(c), S.DeliverData(now, accept))
    ensures FromA(StepA(s, c, Deliver(now, accept))) == FromA(s)
  {
    hide RxStep, DataOf, FcOf, Rx.Valid, Tx.Valid;
    var act := Data(s.ba[0], CAN_DL, now, accept);
    RxSendsFc(s.a.rx, c.a, act);
    var f := RxStep(s.a.rx, c.a, act).sent;
    FcJoins(s.ab, f);
    FcJoins(s.logAb, f);
    HeadSplit(s.ba);
    assert ([s.ba[0]] + DataOf(s.ba[1..]))[1..] == DataOf(s.ba[1..]);
  }

  // ---------------------------------------------------------------------------------------------
  // Theorems
  // ---------------------------------------------------------------------------------------------

  ghost predicate SessionInv(s: S.Session, c: S.Setup) { S.Inv(s, c) && C.Count(s, c) }

  ghost predicate Inv(s: System, c: Configs) {
    Valid(s) && SessionInv(FromA(s), SetupA(c)) && SessionInv(FromB(s), SetupB(c))
  }

  lemma SessionStep(s: S.Session, c: S.Setup, act: S.Act)
    requires SessionInv(s, c) && S.Quiet(s, c, act)
    ensures SessionInv(S.Step(s, c, act), c)
  {
    hide S.Inv, C.Count, S.Step, S.Quiet;
    S.InvStep(s, c, act);
    C.CountStep(s, c, act);
  }

  lemma {:induction false} InvStepA(s: System, c: Configs, act: NodeAct)
    requires Inv(s, c) && QuietA(s, c, act)
    ensures Inv(StepA(s, c, act), c)
  {
    hide SessionInv, S.Step;
    match act
    case Send(t) => SendIsSession(s, c, t); SessionStep(FromA(s), SetupA(c), S.Send(t));
    case Poll(r) => PollIsSession(s, c, r); SessionStep(FromB(s), SetupB(c), S.Poll(r));
    case Deliver(now, accept) =>
      if s.ba != [] {
        if Pci(s.ba[0]) == 3 {
          TakeFcIsSession(s, c, now, accept);
          SessionStep(FromA(s), SetupA(c), S.DeliverFc(now));
        } else {
          TakeDataIsSession(s, c, now, accept);
          SessionStep(FromB(s), SetupB(c), S.DeliverData(now, accept));
        }
      }
  }

  lemma InvSwap(s: System, c: Configs)
    requires Inv(s, c)
    ensures Inv(Swap(s), SwapCfg(c))
  {}

  lemma {:induction false} InvStep(s: System, c: Configs, act: Act)
    requires Inv(s, c) && Quiet(s, c, act)
    ensures Inv(Step(s, c, act), c)
  {
    hide Inv, QuietA;
    match act
    case AtA(n) => InvStepA(s, c, n);
    case AtB(n) =>
      InvSwap(s, c);
      InvStepA(Swap(s), SwapCfg(c), n);
      InvSwap(StepA(Swap(s), SwapCfg(c), n), SwapCfg(c));
  }

  lemma {:induction false} RunInv(s: System, c: Configs, acts: seq<Act>)
    requires Inv(s, c) && QuietRun(s, c, acts)
    ensures Inv(Run(s, c, acts), c)
    decreases |acts|
  {
    hide SessionInv, Step, Quiet;
    if acts != [] {
      InvStep(s, c, acts[0]);
      RunInv(Step(s, c, acts[0]), c, acts[1..]);
    }
  }

  lemma StartInv(aTx: Buffer, aRx: Buffer, bTx: Buffer, bRx: Buffer, c: Configs)
    ensures Inv(Start(IdleNode(aTx, aRx), IdleNode(bTx, bRx)), c)
  {
    var s := Start(IdleNode(aTx, aRx), IdleNode(bTx, bRx));
    C.StartInv(aTx, bRx, SetupA(c));
    C.StartInv(bTx, aRx, SetupB(c));
    assert FromA(s) == P.Start(aTx, bRx);
    assert FromB(s) == P.Start(bTx, aRx);
  }

  /** Everything indicated was accepted at the other end, in that order, and with result Ok. */
  ghost predicate Delivered(inds: seq<Ind>, accepted: seq<seq<u8>>) {
    && |inds| <= |accepted|
    && forall i :: 0 <= i < |inds| ==> inds[i] == Ind(accepted[i], Ok)
  }

  lemma SessionDelivered(s: S.Session, c: S.Setup)
    requires S.Inv(s, c)
    ensures Delivered(s.inds, s.accepted)
  {
    hide S.Match, S.Credit, S.Ahead;
    var v := S.Ahead(s.rx.asm, c.rcfg.blockSize, s.dataQ);
    var done := S.Finished(s);
    assert S.Oks(done) == s.inds + v.inds;
    forall i | 0 <= i < |s.inds| ensures s.inds[i] == Ind(s.accepted[i], Ok) {
      assert s.inds[i] == S.Oks(done)[i];
    }
  }

  /**
   * Both directions at once, any interleaving of calls, deliveries and clock readings, any driver refusals,
   * any block sizes and STmin values, no timeout, messages that fit: what either application is told is a
   * prefix of what the other one sent.
   */
  lemma PrefixDelivery(aTx: Buffer, aRx: Buffer, bTx: Buffer, bRx: Buffer, c: Configs, acts: seq<Act>)
    requires QuietRun(Start(IdleNode(aTx, aRx), IdleNode(bTx, bRx)), c, acts)
    ensures var s := Run(Start(IdleNode(aTx, aRx), IdleNode(bTx, bRx)), c, acts);
      Delivered(s.b.inds, s.a.accepted) && Delivered(s.a.inds, s.b.accepted)
  {
    StartInv(aTx, aRx, bTx, bRx, c);
    var s0 := Start(IdleNode(aTx, aRx), IdleNode(bTx, bRx));
    RunInv(s0, c, acts);
    hide Run, QuietRun, Delivered, S.Inv, C.Count;
    var s := Run(s0, c, acts);
    SessionDelivered(FromA(s), SetupA(c));
    SessionDelivered(FromB(s), SetupB(c));
  }

  // ---------------------------------------------------------------------------------------------
  // Progress
  // ---------------------------------------------------------------------------------------------

  ghost function Measure(s: System, c: Configs): int
    requires Valid(s)
  {
    P.Measure(FromA(s), SetupA(c)) + P.Measure(FromB(s), SetupB(c))
  }

  /** Not a new message. */
  ghost predicate Continues(act: NodeAct) { !(act.Send? && act.tact.Transmit?) }

  ghost predicate MovesA(s: System, act: NodeAct) {
    match act
    case Send(t) => P.Moves(FromA(s), S.Send(t))
    case Poll(r) => P.Moves(FromB(s), S.Poll(r))
    case Deliver(_, _) => s.ba != []
  }

  ghost predicate Moves(s: System, act: Act) {
    match act
    case AtA(n) => MovesA(s, n)
    case AtB(n) => MovesA(Swap(s), n)
  }

  lemma {:induction false} StepALowers(s: System, c: Configs, act: NodeAct)
    requires Inv(s, c) && QuietA(s, c, act) && Continues(act)
    ensures Measure(StepA(s, c, act), c) <= Measure(s, c) - (if MovesA(s, act) then 1 else 0)
  {
    hide S.Step, S.Inv, C.Count, P.Measure;
    match act
    case Send(t) => SendIsSession(s, c, t); P.StepLowers(FromA(s), SetupA(c), S.Send(t));
    case Poll(r) => PollIsSession(s, c, r); P.StepLowers(FromB(s), SetupB(c), S.Poll(r));
    case Deliver(now, accept) =>
      if s.ba != [] {
        HeadSplit(s.ba);
        if Pci(s.ba[0]) == 3 {
          TakeFcIsSession(s, c, now, accept);
          P.StepLowers(FromA(s), SetupA(c), S.DeliverFc(now));
        } else {
          TakeDataIsSession(s, c, now, accept);
          P.StepLowers(FromB(s), SetupB(c), S.DeliverData(now, accept));
        }
      }
  }

  /** Every action but a new message lowers the measure if it moves a frame, and never raises it. */
  lemma StepLowers(s: System, c: Configs, act: Act)
    requires Inv(s, c) && Quiet(s, c, act) && Continues(act.act)
    ensures Measure(Step(s, c, act), c) <= Measure(s, c) - (if Moves(s, act) then 1 else 0)
  {
    hide Inv, P.Measure, QuietA, MovesA;
    match act
    case AtA(n) => StepALowers(s, c, n);
    case AtB(n) =>
      InvSwap(s, c);
      StepALowers(Swap(s), SwapCfg(c), n);
  }

  /** While a sender is busy or a frame is under way, some action moves a frame without firing a timeout. */
  lemma NoDeadlock(s: System, c: Configs) returns (act: Act)
    requires Inv(s, c) && Measure(s, c) > 0
    ensures Quiet(s, c, act) && Moves(s, act) && Continues(act.act)
  {
    if s.ba != [] { act := AtA(Deliver(0, true)); }
    else if s.ab != [] { act := AtB(Deliver(0, true)); }
    else if P.Measure(FromA(s), SetupA(c)) > 0 {
      hide P.Measure, S.Inv, C.Count;
      var m := P.NoDeadlock(FromA(s), SetupA(c));
      act := if m.Send? then AtA(Send(m.tact)) else AtB(Poll(m.ract));
    } else {
      hide P.Measure, S.Inv, C.Count;
      var m := P.NoDeadlock(FromB(s), SetupB(c));
      act := if m.Send? then AtB(Send(m.tact)) else AtA(Poll(m.ract));
    }
  }

  lemma MeasureNat(s: System, c: Configs)
    requires Inv(s, c)
    ensures Valid(s) && Measure(s, c) >= 0
    ensures P.Measure(FromA(s), SetupA(c)) >= 0 && P.Measure(FromB(s), SetupB(c)) >= 0
  {
    hide P.Measure, S.Inv, C.Count;
    P.MeasureNat(FromA(s), SetupA(c));
    P.MeasureNat(FromB(s), SetupB(c));
  }

  lemma StepAccepts(s: System, c: Configs, act: Act)
    requires Valid(s) && Continues(act.act)
    ensures var r := Step(s, c, act); r.a.accepted == s.a.accepted && r.b.accepted == s.b.accepted
  {}

  /** Nothing left to do: all messages of both ends have arrived, at exactly their cost in frames. */
  ghost predicate Complete(s: System, c: Configs) {
    && !s.a.tx.Busy() && !s.b.tx.Busy()
    && s.b.inds == S.Oks(s.a.accepted) && s.a.inds == S.Oks(s.b.accepted)
    && |DataOf(s.logAb)| == C.TotalData(s.a.accepted) && |FcOf(s.logBa)| == C.TotalFc(s.a.accepted, c.b.blockSize)
    && |DataOf(s.logBa)| == C.TotalData(s.b.accepted) && |FcOf(s.logAb)| == C.TotalFc(s.b.accepted, c.a.blockSize)
  }

  lemma SettledSession(s: S.Session, c: S.Setup)
    requires SessionInv(s, c) && P.Measure(s, c) <= 0
    ensures !s.tx.Busy() && s.inds == S.Oks(s.accepted)
    ensures s.dataSent == C.TotalData(s.accepted) && s.fcSent == C.TotalFc(s.accepted, c.rcfg.blockSize)
  {
    P.Settled(s, c);
  }

  lemma Settled(s: System, c: Configs)
    requires Inv(s, c) && Measure(s, c) <= 0
    ensures Complete(s, c)
  {
    MeasureNat(s, c);
    hide SessionInv, P.Measure, S.Oks, C.TotalData, C.TotalFc;
    SettledSession(FromA(s), SetupA(c));
    SettledSession(FromB(s), SetupB(c));
  }

  /** From every reachable state both ends can finish everything they started. */
  lemma {:induction false} Completes(s: System, c: Configs) returns (acts: seq<Act>)
    requires Inv(s, c)
    ensures QuietRun(s, c, acts) && |acts| <= Measure(s, c)
    ensures var r := Run(s, c, acts);
      Complete(r, c) && r.a.accepted == s.a.accepted && r.b.accepted == s.b.accepted
    decreases Measure(s, c)
  {
    hide Inv, Moves, Measure, Step, Quiet, Complete, Continues;
    MeasureNat(s, c);
    if Measure(s, c) <= 0 {
      Settled(s, c);
      acts := [];
    } else {
      var act := NoDeadlock(s, c);
      StepLowers(s, c, act);
      InvStep(s, c, act);
      StepAccepts(s, c, act);
      var rest := Completes(Step(s, c, act), c);
      acts := [act] + rest;
    }
  }

  /** No run gets stuck: whatever happened without a timeout, the rest can be delivered without one. */
  lemma EveryRunCanFinish(aTx: Buffer, aRx: Buffer, bTx: Buffer, bRx: Buffer, c: Configs, acts: seq<Act>)
      returns (more: seq<Act>)
    requires QuietRun(Start(IdleNode(aTx, aRx), IdleNode(bTx, bRx)), c, acts)
    ensures var s := Run(Start(IdleNode(aTx, aRx), IdleNode(bTx, bRx)), c, acts);
      && QuietRun(s, c, more) && |more| <= Measure(s, c)
      && var r := Run(s, c, more);
      && Complete(r, c) && r.a.accepted == s.a.accepted && r.b.accepted == s.b.accepted
  {
    var s0 := Start(IdleNode(aTx, aRx), IdleNode(bTx, bRx));
    StartInv(aTx, aRx, bTx, bRx, c);
    RunInv(s0, c, acts);
    hide Inv, Run, QuietRun, Complete, Measure;
    more := Completes(Run(s0, c, acts), c);
  }

  /** One 4095-byte message to a node with block size 8: 660 frames in all, in either direction. */
  lemma LargestMessage(s: System, c: Configs, m: seq<u8>)
    requires Complete(s, c) && s.a.accepted == [m] && s.b.accepted == [] && |m| == MAX_MESSAGE_LEN && c.b.blockSize == 8
    ensures |s.logAb| + |s.logBa| == 660
  {
    SplitLength(s.logAb);
    SplitLength(s.logBa);
    C.LargestMessageCost(m);
  }
}
