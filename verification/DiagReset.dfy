/**
 * control_ecu/CM4/Core/App/diag_app.c: requests, responses over ISO-TP, and the reset that waits for its response.
 *
 * A run interleaves requests, everything that can happen to the sending half of the ISO-TP link, and the S3
 * timer. The confirmation callback of the link is where a pending reset is executed.
 */
module DiagReset {
  import opened Words
  import opened IsoTpModel
  import Sender = IsoTpSender
  import opened UdsModel
  import DiagApp

  const RESPONSE_MAX: u16 := DiagApp.BUFFER_SIZE

  /**
   * An accepted 0x11 request: `from` is how many responses had been confirmed, `taken` that the link took its
   * response.
   */
  datatype Accepted = Accepted(kind: u8, from: nat, taken: bool)

  /** A call of the reset callback: its argument, the request it belongs to, and the confirmation it ran in. */
  datatype ResetRun = ResetRun(kind: u8, request: int, conf: nat)

  /** `now`: real time in ms; `asked`: when requests were processed; `polled`: the last S3 check. */
  datatype Diag = Diag(link: Sender.Monitor, srv: Srv, requests: seq<Accepted>, resets: seq<ResetRun>,
                       now: nat, asked: seq<nat>, polled: nat)

  datatype Action =
    | Request(req: Bytes, functional: bool, w: World, start: u32, accept: bool, after: u32)
    | Link(act: TxAct)
    /** Uds_MainFunction */
    | Timer
    | Pass(ms: nat)

  ghost predicate Legal(a: Action) {
    match a
    case Request(req, _, w, _, _, _) => |req| >= 1 ==> Fits(w, req)
    case Link(act) => !act.Transmit?
    case Timer => true
    case Pass(_) => true
  }

  /** What the 32-bit millisecond tick shows. */
  ghost function Tick(d: Diag): u32 { d.now % TWO32 }

  /** The server's answer to a request that arrives now. */
  ghost function Served(d: Diag, a: Action): (Srv, Bytes)
    requires a.Request? && Legal(a)
  {
    Process(d.srv, a.w, Tick(d), a.req, a.functional, RESPONSE_MAX)
  }

  ghost predicate AcceptsReset(d: Diag, a: Action)
    requires a.Request? && Legal(a)
  {
    && |a.req| >= 1 && a.req[0] == 0x11
    && Decide(d.srv.(lastRequest := Tick(d)), a.w, a.req, RESPONSE_MAX).Grant?
  }

  /** OnEcuResponseSent for what the link has just confirmed. */
  ghost function Confirm(d: Diag, link: Sender.Monitor): Diag {
    if |link.done| > |d.link.done| && link.done[|link.done| - 1].conf == Ok then
      var (srv, reset) := TakeReset(d.srv);
      var resets := if reset.None? then d.resets
          else d.resets + [ResetRun(reset.value, |d.requests| - 1, |link.done| - 1)];
      d.(link := link, srv := srv, resets := resets)
    else d.(link := link)
  }

  /** RespondTo */
  ghost function Respond(d: Diag, nBs: u16, a: Action): Diag
    requires a.Request? && Legal(a) && d.link.tx.Valid()
  {
    var (srv, reply) := Served(d, a);
    var transmit := Transmit(reply, a.start, a.accept, a.after);
    var requests :=
      if AcceptsReset(d, a)
      then d.requests + [Accepted(srv.pending, |d.link.done|, reply != [] && Sender.Starts(d.link.tx, transmit))]
      else d.requests;
    var e := d.(srv := srv, requests := requests, asked := if a.req == [] then d.asked else d.asked + [d.now]);
    if reply == [] then e else Confirm(e, Sender.Watch(d.link, nBs, transmit))
  }

  ghost function Do(d: Diag, nBs: u16, a: Action): Diag
    requires Legal(a) && d.link.tx.Valid()
  {
    match a
    case Request(_, _, _, _, _, _) => Respond(d, nBs, a)
    case Link(act) => Confirm(d, Sender.Watch(d.link, nBs, act))
    case Timer => d.(srv := Expire(d.srv, Tick(d)), polled := d.now)
    case Pass(ms) => d.(now := d.now + ms)
  }

  // ---------------------------------------------------------------------------------------------
  // The invariant
  // ---------------------------------------------------------------------------------------------

  ghost predicate NoneOk(done: seq<Sender.Transfer>, lo: nat, hi: nat) {
    forall j :: lo <= j < hi && j < |done| ==> done[j].conf != Ok
  }

  /** The response to an accepted reset request. */
  function ResetResponse(kind: u8): Bytes { [0x51, kind] }

  /** The reset ran in the first Ok confirmation after its request, and no newer request was accepted before that. */
  ghost predicate Explained(r: ResetRun, requests: seq<Accepted>, done: seq<Sender.Transfer>) {
    && 0 <= r.request < |requests| && r.conf < |done|
    && r.kind == requests[r.request].kind
    && requests[r.request].from <= r.conf && done[r.conf].conf == Ok
    && NoneOk(done, requests[r.request].from, r.conf)
    && forall k :: r.request < k < |requests| ==> requests[k].from > r.conf
  }

  ghost predicate RequestsInv(requests: seq<Accepted>, link: Sender.Monitor) {
    forall k :: 0 <= k < |requests| ==>
      && requests[k].from <= |link.done|
      && requests[k].kind in {1, 3}
      && (requests[k].taken ==>
           requests[k].from < |link.accepted| && link.accepted[requests[k].from] == ResetResponse(requests[k].kind))
  }

  ghost predicate ResetsInv(resets: seq<ResetRun>, requests: seq<Accepted>, done: seq<Sender.Transfer>) {
    && (forall i :: 0 <= i < |resets| ==> Explained(resets[i], requests, done))
    && forall i, j :: 0 <= i < j < |resets| ==> resets[i].request < resets[j].request && resets[i].conf < resets[j].conf
  }

  /** A reset is pending exactly when the latest accepted request has not been served. */
  ghost predicate PendingInv(pending: u8, resets: seq<ResetRun>, requests: seq<Accepted>, done: seq<Sender.Transfer>) {
    if pending == 0 then requests == [] || (resets != [] && resets[|resets| - 1].request == |requests| - 1)
    else
      && requests != [] && requests[|requests| - 1].kind == pending
      && NoneOk(done, requests[|requests| - 1].from, |done|)
      && forall i :: 0 <= i < |resets| ==> resets[i].request < |requests| - 1
  }

  ghost predicate Inv(d: Diag) {
    && Sender.Inv(d.link)
    && RequestsInv(d.requests, d.link)
    && ResetsInv(d.resets, d.requests, d.link.done)
    && PendingInv(d.srv.pending, d.resets, d.requests, d.link.done)
  }

  /** What one step of the link adds to its records. */
  lemma WatchGrows(link: Sender.Monitor, nBs: u16, act: TxAct)
    requires Sender.Inv(link)
    ensures var l := Sender.Watch(link, nBs, act);
      && Sender.Inv(l)
      && (l.done == link.done || (|l.done| == |link.done| + 1 && l.done[..|link.done|] == link.done))
      && l.accepted == (if Sender.Starts(link.tx, act) then link.accepted + [act.msg] else link.accepted)
      && (Sender.Starts(link.tx, act) ==> |link.accepted| == |link.done|)
  {
    hide TxStep, Segment, Sender.Burst, Sender.BurstInv, Sender.Accounted;
    Sender.InvStep(link, nBs, act);
    if Sender.Starts(link.tx, act) || link.tx.Busy() { Sender.BusyStep(link.tx, nBs, act); }
    else { Sender.IdleStep(link.tx, nBs, act); }
  }

  ghost predicate Extends(was: Sender.Monitor, now: Sender.Monitor) {
    was.done == now.done || (|now.done| == |was.done| + 1 && now.done[..|was.done|] == was.done)
  }

  /** Longer records keep what was explained, and one more confirmation that is not Ok keeps a reset pending. */
  lemma RecordsGrow(pending: u8, resets: seq<ResetRun>, requests: seq<Accepted>, was: Sender.Monitor,
      now: Sender.Monitor)
    requires ResetsInv(resets, requests, was.done) && PendingInv(pending, resets, requests, was.done)
        && Extends(was, now)
    ensures ResetsInv(resets, requests, now.done)
    ensures now.done == was.done || now.done[|was.done|].conf != Ok || pending == 0
            ==> PendingInv(pending, resets, requests, now.done)
  {
    assert forall j :: 0 <= j < |was.done| ==> now.done[j] == was.done[j];
  }

  lemma RequestsKept(requests: seq<Accepted>, was: Sender.Monitor, now: Sender.Monitor)
    requires RequestsInv(requests, was) && Extends(was, now) && was.accepted <= now.accepted
    ensures RequestsInv(requests, now)
  {
    hide ResetResponse;
  }

  lemma ConfirmInv(d: Diag, link: Sender.Monitor)
    requires ResetsInv(d.resets, d.requests, d.link.done)
        && PendingInv(d.srv.pending, d.resets, d.requests, d.link.done)
    requires d.requests != [] ==> d.requests[|d.requests| - 1].from <= |d.link.done|
    requires Sender.Inv(link) && RequestsInv(d.requests, link) && Extends(d.link, link)
    ensures Inv(Confirm(d, link))
  {
    hide Sender.Inv, RequestsInv, ResetsInv, PendingInv;
    RecordsGrow(d.srv.pending, d.resets, d.requests, d.link, link);
    ConfsBefore(d.resets, d.requests, d.link.done);
    if |link.done| > |d.link.done| && link.done[|link.done| - 1].conf == Ok && d.srv.pending != 0 {
      ServeInv(d, link);
    }
  }

  lemma ConfsBefore(resets: seq<ResetRun>, requests: seq<Accepted>, done: seq<Sender.Transfer>)
    requires ResetsInv(resets, requests, done)
    ensures forall i :: 0 <= i < |resets| ==> 0 <= resets[i].request < |requests| && resets[i].conf < |done|
  {}

  lemma ServeInv(d: Diag, link: Sender.Monitor)
    requires ResetsInv(d.resets, d.requests, link.done)
    requires PendingInv(d.srv.pending, d.resets, d.requests, d.link.done) && d.srv.pending != 0
    requires |link.done| == |d.link.done| + 1 && link.done[..|d.link.done|] == d.link.done
        && link.done[|d.link.done|].conf == Ok
    requires d.requests != [] ==> d.requests[|d.requests| - 1].from <= |d.link.done|
    requires forall i :: 0 <= i < |d.resets| ==> d.resets[i].conf < |d.link.done|
    ensures var resets := d.resets + [ResetRun(d.srv.pending, |d.requests| - 1, |link.done| - 1)];
      ResetsInv(resets, d.requests, link.done) && PendingInv(0, resets, d.requests, link.done)
  {
    assert forall j :: 0 <= j < |d.link.done| ==> link.done[j] == d.link.done[j];
  }

  // ---------------------------------------------------------------------------------------------
  // Requests
  // ---------------------------------------------------------------------------------------------

  /** An accepted reset request: only in the extended session, and answered with 51 kind unless suppressed. */
  lemma AcceptedReset(d: Diag, a: Action)
    requires a.Request? && Legal(a) && AcceptsReset(d, a)
    ensures var (srv, reply) := Served(d, a);
      && d.srv.session == 3 == srv.session
      && |a.req| == 2 && srv.pending == a.req[1] % 0x80 && srv.pending in {1, 3}
      && reply == if a.req[1] >= 0x80 then [] else ResetResponse(srv.pending)
  {
    hide Fits;
  }

  /** The requests that are accepted: 11 01 and 11 03, with or without the suppress bit, in session 3. */
  lemma AcceptedExactly(d: Diag, a: Action)
    requires a.Request? && Legal(a)
    ensures AcceptsReset(d, a) <==>
      |a.req| == 2 && a.req[0] == 0x11 && a.req[1] in {0x01, 0x03, 0x81, 0x83} && d.srv.session == 3
  {
    hide Fits;
  }

  /** Every other request leaves a pending reset as it is. */
  lemma OtherRequest(d: Diag, a: Action)
    requires a.Request? && Legal(a) && !AcceptsReset(d, a)
    ensures Served(d, a).0.pending == d.srv.pending
  {
    hide Fits, Reply;
  }

  lemma AddRequest(resets: seq<ResetRun>, requests: seq<Accepted>, done: seq<Sender.Transfer>, x: Accepted)
    requires ResetsInv(resets, requests, done) && x.from == |done| && x.kind != 0
    ensures ResetsInv(resets, requests + [x], done) && PendingInv(x.kind, resets, requests + [x], done)
  {}

  lemma RequestsAdd(requests: seq<Accepted>, link: Sender.Monitor, x: Accepted)
    requires RequestsInv(requests, link) && x.from <= |link.done| && x.kind in {1, 3}
    requires x.taken ==> x.from < |link.accepted| && link.accepted[x.from] == ResetResponse(x.kind)
    ensures RequestsInv(requests + [x], link)
  {}

  /** The state of `Respond` before the link's confirmation, if any, is handled. */
  ghost function Before(d: Diag, a: Action): Diag
    requires a.Request? && Legal(a) && d.link.tx.Valid()
  {
    var (srv, reply) := Served(d, a);
    var starts := reply != [] && Sender.Starts(d.link.tx, Transmit(reply, a.start, a.accept, a.after));
    d.(srv := srv, asked := if a.req == [] then d.asked else d.asked + [d.now],
       requests := if AcceptsReset(d, a) then d.requests + [Accepted(srv.pending, |d.link.done|, starts)]
           else d.requests)
  }

  lemma LinkValid(link: Sender.Monitor)
    requires Sender.Inv(link)
    ensures link.tx.Valid()
  {}

  lemma BeforeInv(d: Diag, a: Action)
    requires Inv(d) && a.Request? && Legal(a)
    ensures var e := Before(d, a);
      && ResetsInv(e.resets, e.requests, d.link.done) && PendingInv(e.srv.pending, e.resets, e.requests, d.link.done)
      && (e.requests != [] ==> e.requests[|e.requests| - 1].from <= |d.link.done|)
  {
    hide Sender.Inv, ResetsInv, PendingInv, Served, AcceptsReset, Sender.Starts, ResetResponse;
    LinkValid(d.link);
    if AcceptsReset(d, a) {
      AcceptedReset(d, a);
      var e := Before(d, a);
      AddRequest(d.resets, d.requests, d.link.done, e.requests[|e.requests| - 1]);
    } else {
      OtherRequest(d, a);
    }
  }

  /** The records of the requests after the response has been handed to the link, or was not sent at all. */
  lemma BeforeRequests(d: Diag, nBs: u16, a: Action)
    requires Inv(d) && a.Request? && Legal(a)
    ensures var reply := Served(d, a).1;
      var transmit := Transmit(reply, a.start, a.accept, a.after);
      var link := if reply == [] then d.link else Sender.Watch(d.link, nBs, transmit);
      RequestsInv(Before(d, a).requests, link)
  {
    hide ResetsInv, PendingInv, RequestsInv, Served, AcceptsReset, Sender.Starts, ResetResponse, Sender.Watch,
        Sender.Inv;
    LinkValid(d.link);
    var reply := Served(d, a).1;
    var transmit := Transmit(reply, a.start, a.accept, a.after);
    var link := if reply == [] then d.link else Sender.Watch(d.link, nBs, transmit);
    WatchGrows(d.link, nBs, transmit);
    RequestsKept(d.requests, d.link, link);
    if AcceptsReset(d, a) {
      AcceptedReset(d, a);
      var e := Before(d, a);
      RequestsAdd(d.requests, link, e.requests[|e.requests| - 1]);
    }
  }

  lemma RespondInv(d: Diag, nBs: u16, a: Action)
    requires Inv(d) && a.Request? && Legal(a)
    ensures Inv(Respond(d, nBs, a))
  {
    hide RequestsInv, ResetsInv, PendingInv, Served, Confirm, AcceptsReset, Sender.Watch, Sender.Starts, Sender.Inv;
    LinkValid(d.link);
    var (srv, reply) := Served(d, a);
    var transmit := Transmit(reply, a.start, a.accept, a.after);
    BeforeInv(d, a);
    BeforeRequests(d, nBs, a);
    WatchGrows(d.link, nBs, transmit);
    if reply != [] { ConfirmInv(Before(d, a), Sender.Watch(d.link, nBs, transmit)); }
  }

  lemma LinkInv(d: Diag, nBs: u16, act: TxAct)
    requires Inv(d) && !act.Transmit?
    ensures Inv(Do(d, nBs, Link(act)))
  {
    hide RequestsInv, ResetsInv, PendingInv, Confirm, Sender.Watch, Sender.Inv;
    LatestFrom(d);
    LinkValid(d.link);
    WatchGrows(d.link, nBs, act);
    RequestsKept(d.requests, d.link, Sender.Watch(d.link, nBs, act));
    ConfirmInv(d, Sender.Watch(d.link, nBs, act));
  }

  lemma LatestFrom(d: Diag)
    requires Inv(d)
    ensures d.requests != [] ==> d.requests[|d.requests| - 1].from <= |d.link.done|
  {}

  lemma StepInv(d: Diag, nBs: u16, a: Action)
    requires Inv(d) && Legal(a)
    ensures Inv(Do(d, nBs, a))
  {
    match a
    case Request(_, _, _, _, _, _) => RespondInv(d, nBs, a);
    case Link(act) => LinkInv(d, nBs, act);
    case Timer =>
    case Pass(_) =>
  }

  // ---------------------------------------------------------------------------------------------
  // Runs
  // ---------------------------------------------------------------------------------------------

  ghost predicate AllLegal(acts: seq<Action>) { forall i :: 0 <= i < |acts| ==> Legal(acts[i]) }

  /** DiagApp_Init: an idle link and the default session. */
  ghost function Start(buf: Buffer, now: nat): Diag {
    Diag(Sender.Idle(buf), Srv(1, 0, now % TWO32), [], [], now, [], now)
  }

  ghost function Run(d: Diag, nBs: u16, acts: seq<Action>): (r: Diag)
    requires AllLegal(acts) && d.link.tx.Valid()
    ensures r.link.tx.Valid()
    decreases |acts|
  {
    if acts == [] then d else Do(Run(d, nBs, acts[..|acts| - 1]), nBs, acts[|acts| - 1])
  }

  lemma {:induction false} RunInv(d: Diag, nBs: u16, acts: seq<Action>)
    requires AllLegal(acts) && Inv(d)
    ensures Inv(Run(d, nBs, acts))
    decreases |acts|
  {
    hide Do, Legal, RequestsInv, ResetsInv, PendingInv;
    if acts != [] {
      RunInv(d, nBs, acts[..|acts| - 1]);
      StepInv(Run(d, nBs, acts[..|acts| - 1]), nBs, acts[|acts| - 1]);
    }
  }

  /**
   * In every run: the reset callback runs only inside an Ok confirmation, the first one after its request was
   * accepted and before any newer request, with that request's type, and at most once per request. A reset is
   * pending exactly when the newest accepted request has seen no Ok confirmation since.
   */
  lemma ResetsAreAnswers(buf: Buffer, now: nat, nBs: u16, acts: seq<Action>)
    requires AllLegal(acts)
    ensures var d := Run(Start(buf, now), nBs, acts);
      && ResetsInv(d.resets, d.requests, d.link.done)
      && PendingInv(d.srv.pending, d.resets, d.requests, d.link.done)
  {
    hide Run;
    assert Inv(Start(buf, now));
    RunInv(Start(buf, now), nBs, acts);
  }

  /**
   * If the response to a reset request was taken by the link, the reset never precedes the confirmation of that
   * response; if that confirmation is Ok, the reset runs in it, after every frame of the response has been given
   * to the driver.
   */
  lemma ResetAfterResponse(buf: Buffer, now: nat, nBs: u16, acts: seq<Action>, i: nat)
    requires AllLegal(acts)
    requires i < |Run(Start(buf, now), nBs, acts).resets|
    ensures var d := Run(Start(buf, now), nBs, acts);
      var r := d.resets[i];
      && 0 <= r.request < |d.requests|
      && var x := d.requests[r.request];
      x.taken ==>
        && x.from <= r.conf < |d.link.done|
        && d.link.done[x.from].msg == ResetResponse(r.kind)
        && (d.link.done[x.from].conf == Ok ==>
             r.conf == x.from && d.link.done[x.from].frames == Segment(ResetResponse(r.kind)))
  {
    hide Run, Segment;
    var d := Run(Start(buf, now), nBs, acts);
    assert Inv(Start(buf, now));
    RunInv(Start(buf, now), nBs, acts);
    assert Explained(d.resets[i], d.requests, d.link.done);
  }

  /**
   * A reset request that meets a busy link loses its response: the link's messages stay as they were, the reset is
   * pending all the same, and so the confirmation of the older message will run it.
   */
  lemma BusyLinkLosesResponse(d: Diag, nBs: u16, a: Action)
    requires Inv(d) && a.Request? && Legal(a) && AcceptsReset(d, a) && d.link.tx.Busy() && |d.link.tx.buf| >= 2
    ensures var e := Do(d, nBs, a);
      && e.link.accepted == d.link.accepted && e.link.tx.Busy() && e.resets == d.resets
      && e.srv.pending == a.req[1] % 0x80
      && |e.requests| == |d.requests| + 1 && !e.requests[|d.requests|].taken
  {
    AcceptedReset(d, a);
    hide Served, AcceptsReset;
  }
}
