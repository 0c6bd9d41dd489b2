/**
 * The S3 timer of common/uds/uds_server.c over whole runs of control_ecu/CM4/Core/App/diag_app.c: how old the newest
 * request can be while a session other than the default one is active.
 */
module DiagSession {
  import opened Words
  import opened IsoTpModel
  import Sender = IsoTpSender
  import opened UdsModel
  import opened DiagReset

  /** How long ago the newest request was processed. */
  ghost function Age(d: Diag): int
    requires d.asked != []
  {
    d.now - d.asked[|d.asked| - 1]
  }

  /** Requests are recorded in order; the server stamps the newest, and only a request opens a session. */
  ghost predicate SessionInv(d: Diag) {
    && d.link.tx.Valid() && d.polled <= d.now
    && (forall i, j :: 0 <= i < j < |d.asked| ==> d.asked[i] <= d.asked[j])
    && (d.asked != [] ==> Age(d) >= 0 && d.srv.lastRequest == d.asked[|d.asked| - 1] % TWO32)
    && (d.srv.session != 1 ==> d.asked != [])
  }

  /** What a request does to the timer and the session. */
  lemma ServedStamps(d: Diag, a: Action)
    requires a.Request? && Legal(a)
    ensures var srv := Served(d, a).0;
      if a.req == [] then srv == d.srv else srv.lastRequest == Tick(d)
  {
    if a.req != [] {
      var s1 := d.srv.(lastRequest := Tick(d));
      GrantKeepsStamp(s1, a.w, a.req, RESPONSE_MAX);
      hide Fits, Decide;
    }
  }

  lemma GrantKeepsStamp(s: Srv, w: World, req: Bytes, respMax: u16)
    requires |req| >= 1 && Fits(w, req)
    ensures Next(s, Decide(s, w, req, respMax)).lastRequest == s.lastRequest
  {
    hide Fits;
  }

  /** A confirmation touches neither the clock nor the requests, and can only end a session. */
  lemma ConfirmSession(d: Diag, link: Sender.Monitor)
    ensures var e := Confirm(d, link);
      && e.link == link && e.now == d.now && e.asked == d.asked && e.polled == d.polled
      && e.srv.lastRequest == d.srv.lastRequest
      && (e.srv.session == d.srv.session || e.srv.session == 1)
  {}

  lemma SessionStep(d: Diag, nBs: u16, a: Action)
    requires SessionInv(d) && Legal(a)
    ensures SessionInv(Do(d, nBs, a))
    ensures var e := Do(d, nBs, a);
      && e.now == d.now + (if a.Pass? then a.ms else 0)
      && e.asked == d.asked + (if a.Request? && a.req != [] then [d.now] else [])
      && e.polled == (if a.Timer? then d.now else d.polled)
      && (!a.Request? && !a.Timer? ==> e.srv.session == d.srv.session || e.srv.session == 1)
      && (a.Request? && a.req == [] ==> e.srv.session == d.srv.session)
      && (a.Timer? ==> e.srv == Expire(d.srv, Tick(d)))
  {
    hide Served, Confirm, Sender.Watch, AcceptsReset, Sender.Starts;
    match a
    case Request(req, _, _, _, _, _) =>
      ServedStamps(d, a);
      if req == [] { NoReply(d, a); }
      Responded(d, nBs, a);
    case Link(act) =>
      ConfirmSession(d, Sender.Watch(d.link, nBs, act));
      WatchValid(d.link, nBs, act);
    case Timer =>
    case Pass(_) =>
  }

  lemma NoReply(d: Diag, a: Action)
    requires a.Request? && Legal(a) && a.req == []
    ensures Served(d, a) == (d.srv, [])
  {}

  /** The parts of Respond that the session depends on. */
  lemma Responded(d: Diag, nBs: u16, a: Action)
    requires a.Request? && Legal(a) && d.link.tx.Valid()
    ensures var e := Respond(d, nBs, a); var srv := Served(d, a).0;
      && e.link.tx.Valid() && e.now == d.now && e.polled == d.polled
      && e.asked == (if a.req == [] then d.asked else d.asked + [d.now])
      && e.srv.lastRequest == srv.lastRequest
      && (e.srv.session == srv.session || e.srv.session == 1)
      && (Served(d, a).1 == [] ==> e.srv == srv)
  {
    hide Served, Confirm, Sender.Watch, AcceptsReset, Sender.Starts;
    var (srv, reply) := Served(d, a);
    var transmit := Transmit(reply, a.start, a.accept, a.after);
    var requests :=
      if AcceptsReset(d, a)
      then d.requests + [Accepted(srv.pending, |d.link.done|, reply != [] && Sender.Starts(d.link.tx, transmit))]
      else d.requests;
    var e := d.(srv := srv, requests := requests, asked := if a.req == [] then d.asked else d.asked + [d.now]);
    ConfirmSession(e, Sender.Watch(d.link, nBs, transmit));
    WatchValid(d.link, nBs, transmit);
  }

  lemma WatchValid(link: Sender.Monitor, nBs: u16, act: TxAct)
    requires link.tx.Valid()
    ensures Sender.Watch(link, nBs, act).tx.Valid()
  {
    hide TxStep;
  }

  lemma {:induction false} SessionRun(d: Diag, nBs: u16, acts: seq<Action>)
    requires AllLegal(acts) && SessionInv(d)
    ensures SessionInv(Run(d, nBs, acts))
    decreases |acts|
  {
    hide Do, Legal;
    if acts != [] {
      SessionRun(d, nBs, acts[..|acts| - 1]);
      SessionStep(Run(d, nBs, acts[..|acts| - 1]), nBs, acts[|acts| - 1]);
    }
  }

  lemma StampAge(d: Diag)
    requires SessionInv(d) && d.asked != []
    ensures Elapsed(Tick(d), d.srv.lastRequest) == Age(d) % TWO32
  {
    WrappedDifference(d.now, d.asked[|d.asked| - 1]);
  }

  lemma WrappedDifference(a: int, b: int)
    ensures (a % TWO32 - b % TWO32) % TWO32 == (a - b) % TWO32
  {}

  /**
   * In every run: right after Uds_MainFunction the session is extended exactly if it was before and the newest request
   * of the run was processed less than 5000 ms ago, modulo 2^32.
   */
  lemma SessionNeedsRequest(buf: Buffer, start: nat, nBs: u16, acts: seq<Action>)
    requires AllLegal(acts)
    ensures var d := Run(Start(buf, start), nBs, acts);
      var e := Do(d, nBs, Timer);
      && (forall i :: 0 <= i < |d.asked| ==> d.asked[i] <= d.asked[|d.asked| - 1] <= d.now)
      && (e.srv.session != 1 <==>
           d.srv.session != 1 && d.asked != [] && Age(d) % TWO32 < 5000)
  {
    hide Run, Do, SessionInv;
    StartSession(buf, start);
    SessionRun(Start(buf, start), nBs, acts);
    TimerDecides(Run(Start(buf, start), nBs, acts), nBs);
  }

  lemma StartSession(buf: Buffer, start: nat)
    ensures SessionInv(Start(buf, start))
  {}

  lemma TimerDecides(d: Diag, nBs: u16)
    requires SessionInv(d)
    ensures var e := Do(d, nBs, Timer);
      && (forall i :: 0 <= i < |d.asked| ==> d.asked[i] <= d.asked[|d.asked| - 1] <= d.now)
      && (e.srv.session != 1 <==>
           d.srv.session != 1 && d.asked != [] && Age(d) % TWO32 < 5000)
  {
    hide Elapsed;
    if d.asked != [] { StampAge(d); }
  }

  // ---------------------------------------------------------------------------------------------
  // With a periodic call at least every `p` ms, in real time
  // ---------------------------------------------------------------------------------------------

  /** Time never runs more than `p` ms ahead of the last S3 check. */
  ghost predicate PolledEvery(d: Diag, nBs: u16, p: nat, acts: seq<Action>)
    requires AllLegal(acts) && d.link.tx.Valid()
    decreases |acts|
  {
    acts == [] ||
    (var n := |acts| - 1;
       PolledEvery(d, nBs, p, acts[..n]) && Run(d, nBs, acts).now <= Run(d, nBs, acts).polled + p)
  }

  /** At the last check, a session that is still open had a request less than 5000 ms old. */
  ghost predicate RealInv(d: Diag, p: nat) {
    && SessionInv(d) && d.now <= d.polled + p
    && (d.srv.session != 1 && d.polled > d.asked[|d.asked| - 1] ==>
         d.polled - d.asked[|d.asked| - 1] < 5000)
  }

  lemma RealStep(d: Diag, nBs: u16, p: nat, a: Action)
    requires RealInv(d, p) && Legal(a) && 5000 + p < TWO32
    requires Do(d, nBs, a).now <= Do(d, nBs, a).polled + p
    ensures RealInv(Do(d, nBs, a), p)
  {
    hide Do, Elapsed;
    SessionStep(d, nBs, a);
    if a.Timer? && d.asked != [] { StampAge(d); }
  }

  lemma {:induction false} RealRun(d: Diag, nBs: u16, p: nat, acts: seq<Action>)
    requires AllLegal(acts) && RealInv(d, p) && 5000 + p < TWO32 && PolledEvery(d, nBs, p, acts)
    ensures RealInv(Run(d, nBs, acts), p)
    decreases |acts|
  {
    hide Do, Legal, RealInv;
    if acts != [] {
      var n := |acts| - 1;
      RealValid(d, p);
      RealRun(d, nBs, p, acts[..n]);
      RealStep(Run(d, nBs, acts[..n]), nBs, p, acts[n]);
    }
  }

  lemma RealValid(d: Diag, p: nat)
    requires RealInv(d, p)
    ensures d.link.tx.Valid()
  {}

  /**
   * If Uds_MainFunction runs at least every p ms, then at every moment of every run an extended session means that the
   * newest request was processed less than 5000 + p ms of real time ago; the wrapping of the tick does not matter.
   */
  lemma SessionEndsInTime(buf: Buffer, start: nat, nBs: u16, p: nat, acts: seq<Action>)
    requires AllLegal(acts) && 5000 + p < TWO32 && PolledEvery(Start(buf, start), nBs, p, acts)
    ensures var d := Run(Start(buf, start), nBs, acts);
      d.srv.session != 1 ==> d.asked != [] && 0 <= Age(d) < 5000 + p
  {
    hide Run;
    RealRun(Start(buf, start), nBs, p, acts);
  }
}
