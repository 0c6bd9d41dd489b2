/**
 * The trouble codes over whole conversations: one timeline of everything that happened to the table, in which the
 * requests of the client take their place.
 *
 * `UdsExchange` lets every request meet an arbitrary world. Here the world is the server's own table: monitors report
 * at any time, also between the two accesses of one request, operation cycles start, and a granted 0x14 clears.
 */
module DiagTimeline {
  import opened Words
  import opened IsoTpModel
  import opened Dtc
  import opened DtcManager
  import opened UdsModel
  import opened UdsClient
  import UdsRoundTrip
  import opened UdsWire
  import DiagApp
  import P = IsoTpPair
  import U = UdsExchange
  import opened Diagnosis

  // ---------------------------------------------------------------------------------------------
  // The table as a function of what happened
  // ---------------------------------------------------------------------------------------------

  /** What happened to each of n codes since the last clear. */
  ghost function Histories(n: nat, ms: seq<Moment>): (h: seq<seq<Event>>)
    ensures |h| == n
  {
    if ms == [] then seq(n, _ => []) else After(Histories(n, ms[..|ms| - 1]), ms[|ms| - 1])
  }

  ghost function EntriesAt(table: seq<Config>, ms: seq<Moment>): (es: seq<Entry>)
    ensures |es| == |table|
  {
    var h := Histories(|table|, ms);
    seq(|table|, k requires 0 <= k < |table| => Replay(Threshold(table[k]), h[k]))
  }

  lemma EntriesRecorded(table: seq<Config>, ms: seq<Moment>)
    ensures Recorded(table, EntriesAt(table, ms), Histories(|table|, ms))
  {
    hide Replay, Histories;
  }

  /** What lies before a clear is forgotten. */
  lemma {:induction false} SinceClear(n: nat, ms: seq<Moment>, p: nat)
    requires p < |ms| && ms[p] == Cleared
    ensures Histories(n, ms) == Histories(n, ms[p + 1..])
    decreases |ms|
  {
    hide After;
    if p == |ms| - 1 {
      assert ms[p + 1..] == [];
      ClearForgets(Histories(n, ms[..p]));
    } else {
      SinceClear(n, ms[..|ms| - 1], p);
      assert ms[p + 1..][..|ms| - 1 - (p + 1)] == ms[..|ms| - 1][p + 1..];
    }
  }

  lemma ClearForgets(h: seq<seq<Event>>)
    ensures After(h, Cleared) == seq(|h|, _ => [])
  {}

  // ---------------------------------------------------------------------------------------------
  // Runs
  // ---------------------------------------------------------------------------------------------

  /** Two links, the identifiers and the trouble-code table of the server. */
  datatype Ecu = Ecu(links: P.Configs, dids: seq<Did>, table: seq<Config>)

  /** For each served request: where the timeline stood when the codes were counted, and when they were copied. */
  datatype Diary = Diary(conv: U.Conv, moments: seq<Moment>, counted: seq<nat>, copied: seq<nat>)

  datatype Act =
    /** Another task reports or starts a cycle, or another tester clears. */
    | Happen(moment: Moment)
    /** Everything of the conversation but the serving of a request. */
    | Talk(act: U.Act)
    /** OnEcuRequest; `reports` come in between the accesses of one request, `data` from the read functions. */
    | Answer(data: seq<Bytes>, reports: seq<Moment>, now: u32, started: u32, accept: bool, after: u32)

  ghost function WorldAt(ecu: Ecu, ms: seq<Moment>, act: Act): World
    requires act.Answer?
  {
    World(ecu.dids, ecu.table, EntriesAt(ecu.table, ms), EntriesAt(ecu.table, ms + act.reports), act.data)
  }

  ghost function ServeAct(ecu: Ecu, ms: seq<Moment>, act: Act): U.Act
    requires act.Answer?
  {
    U.Serve(WorldAt(ecu, ms, act), act.now, act.started, act.accept, act.after)
  }

  /** A granted clearAllDtcs. */
  ghost predicate Clears(e: U.Exchange) {
    && e.req != [] && Fits(e.world, e.req)
    && var d := Decide(e.srv.(lastRequest := e.now), e.world, e.req, DiagApp.BUFFER_SIZE);
    d.Grant? && d.clear
  }

  ghost function Step(d: Diary, ecu: Ecu, act: Act): (r: Diary)
    requires U.Valid(d.conv)
    ensures U.Valid(r.conv)
  {
    match act
    case Happen(m) => d.(moments := d.moments + [m])
    case Talk(u) => if u.Serve? then d else d.(conv := U.Step(d.conv, ecu.links, u))
    case Answer(_, reports, _, _, _, _) =>
      var next := U.Step(d.conv, ecu.links, ServeAct(ecu, d.moments, act));
      if |next.log| == |d.conv.log| then d
      else
        var during := d.moments + reports;
        Diary(next, during + (if Clears(next.log[|next.log| - 1]) then [Cleared] else []),
              d.counted + [|d.moments|], d.copied + [|during|])
  }

  ghost predicate Legal(d: Diary, ecu: Ecu, act: Act)
    requires U.Valid(d.conv)
  {
    match act
    case Happen(_) => true
    case Talk(u) => !u.Serve? && U.Legal(d.conv, ecu.links, u)
    case Answer(_, reports, _, _, _, _) =>
      && (forall i :: 0 <= i < |reports| ==> reports[i].Reported?)
      && U.Legal(d.conv, ecu.links, ServeAct(ecu, d.moments, act))
  }

  ghost function Run(d: Diary, ecu: Ecu, acts: seq<Act>): (r: Diary)
    requires U.Valid(d.conv)
    ensures U.Valid(r.conv)
    decreases |acts|
  {
    if acts == [] then d else Run(Step(d, ecu, acts[0]), ecu, acts[1..])
  }

  ghost predicate LegalRun(d: Diary, ecu: Ecu, acts: seq<Act>)
    requires U.Valid(d.conv)
    decreases |acts|
  {
    acts == [] || (Legal(d, ecu, acts[0]) && LegalRun(Step(d, ecu, acts[0]), ecu, acts[1..]))
  }

  /** Two idle links and a table after DtcMgr_Init, and any legal run. */
  ghost predicate Reachable(d: Diary, ecu: Ecu) {
    exists aTx: Buffer, aRx: Buffer, bTx: Buffer, bRx: Buffer, srv: Srv, acts: seq<Act> ::
      && |bTx| >= DiagApp.BUFFER_SIZE
      && LegalRun(Boot(aTx, aRx, bTx, bRx, srv), ecu, acts)
      && d == Run(Boot(aTx, aRx, bTx, bRx, srv), ecu, acts)
  }

  ghost function Boot(aTx: Buffer, aRx: Buffer, bTx: Buffer, bRx: Buffer, srv: Srv): Diary {
    Diary(U.Idle(aTx, aRx, bTx, bRx, srv), [], [], [])
  }

  // ---------------------------------------------------------------------------------------------
  // Every run is a conversation
  // ---------------------------------------------------------------------------------------------

  ghost function Plain(d: Diary, ecu: Ecu, act: Act): seq<U.Act> {
    match act
    case Happen(_) => []
    case Talk(u) => [u]
    case Answer(_, _, _, _, _, _) => [ServeAct(ecu, d.moments, act)]
  }

  lemma ServeLogs(v: U.Conv, c: P.Configs, act: U.Act)
    requires U.Valid(v) && act.Serve? && U.Legal(v, c, act)
    ensures var r := U.Step(v, c, act);
      && r.log == v.log + [r.log[|v.log|]] && |r.log| == |v.log| + 1
      && r.log[|v.log|].world == act.world
  {
    hide Process, U.Possible;
  }

  lemma PlainStep(d: Diary, ecu: Ecu, act: Act)
    requires U.Valid(d.conv) && Legal(d, ecu, act)
    ensures var us := Plain(d, ecu, act);
      U.LegalRun(d.conv, ecu.links, us) && U.Run(d.conv, ecu.links, us) == Step(d, ecu, act).conv
  {
    hide U.Step, U.Legal;
    if act.Talk? { U.Single(d.conv, ecu.links, act.act); }
    if act.Answer? {
      U.Single(d.conv, ecu.links, ServeAct(ecu, d.moments, act));
      ServeLogs(d.conv, ecu.links, ServeAct(ecu, d.moments, act));
    }
  }

  lemma {:induction false} IsConversation(d: Diary, ecu: Ecu, acts: seq<Act>) returns (us: seq<U.Act>)
    requires U.Valid(d.conv) && LegalRun(d, ecu, acts)
    ensures U.LegalRun(d.conv, ecu.links, us)
    ensures U.Run(d.conv, ecu.links, us) == Run(d, ecu, acts).conv
    decreases |acts|
  {
    hide Step, Legal, Plain, U.Run, U.LegalRun;
    us := [];
    if acts == [] { U.Nothing(d.conv, ecu.links); }
    else {
      PlainStep(d, ecu, acts[0]);
      var rest := IsConversation(Step(d, ecu, acts[0]), ecu, acts[1..]);
      U.RunThen(d.conv, ecu.links, Plain(d, ecu, acts[0]), rest);
      us := Plain(d, ecu, acts[0]) + rest;
    }
  }

  // ---------------------------------------------------------------------------------------------
  // Every exchange has its place in the timeline
  // ---------------------------------------------------------------------------------------------

  /** The k-th exchange saw the table as the timeline makes it, and a granted clear stands in the timeline. */
  ghost predicate Placed(d: Diary, ecu: Ecu, k: nat)
    requires k < |d.conv.log| == |d.counted| == |d.copied|
  {
    var e := d.conv.log[k];
    && d.counted[k] <= d.copied[k] <= |d.moments|
    && e.world.dids == ecu.dids && e.world.table == ecu.table
    && e.world.counted == EntriesAt(ecu.table, d.moments[..d.counted[k]])
    && e.world.copied == EntriesAt(ecu.table, d.moments[..d.copied[k]])
    && (Clears(e) ==> Behind(d, k) <= |d.moments| && d.moments[d.copied[k]] == Cleared)
  }

  /** The end of the k-th exchange in the timeline. */
  ghost function Behind(d: Diary, k: nat): nat
    requires k < |d.conv.log| == |d.copied|
  {
    d.copied[k] + (if Clears(d.conv.log[k]) then 1 else 0)
  }

  ghost predicate InPlace(d: Diary, ecu: Ecu) {
    && |d.conv.log| == |d.counted| == |d.copied|
    && (forall k :: 0 <= k < |d.conv.log| ==> Placed(d, ecu, k) && Behind(d, k) <= |d.moments|)
    && (forall j, k :: 0 <= j < k < |d.conv.log| ==> Behind(d, j) <= d.counted[k])
  }

  /** Nothing that happens later moves a place. */
  lemma StaysPlaced(d: Diary, r: Diary, ecu: Ecu, k: nat)
    requires |d.conv.log| == |d.counted| == |d.copied| && |r.conv.log| == |r.counted| == |r.copied|
    requires d.conv.log <= r.conv.log && d.moments <= r.moments && d.counted <= r.counted && d.copied <= r.copied
    requires k < |d.conv.log| && Placed(d, ecu, k)
    ensures Placed(r, ecu, k) && Behind(r, k) == Behind(d, k)
  {
    hide EntriesAt, Clears;
    assert r.moments[..d.counted[k]] == d.moments[..d.counted[k]];
    assert r.moments[..d.copied[k]] == d.moments[..d.copied[k]];
  }

  lemma InPlaceStays(d: Diary, r: Diary, ecu: Ecu)
    requires InPlace(d, ecu) && d.moments <= r.moments
    requires r.conv.log == d.conv.log && r.counted == d.counted && r.copied == d.copied
    ensures InPlace(r, ecu)
  {
    hide Placed;
    forall k | 0 <= k < |d.conv.log| ensures Placed(r, ecu, k) && Behind(r, k) == Behind(d, k) {
      StaysPlaced(d, r, ecu, k);
    }
  }

  lemma AnswerInPlace(d: Diary, ecu: Ecu, act: Act)
    requires U.Valid(d.conv) && InPlace(d, ecu) && act.Answer? && Legal(d, ecu, act)
    ensures InPlace(Step(d, ecu, act), ecu)
  {
    hide U.Step, U.Legal, Clears, EntriesAt;
    ServeLogs(d.conv, ecu.links, ServeAct(ecu, d.moments, act));
    var r := Step(d, ecu, act);
    var n := |d.conv.log|;
    assert r.moments[..|d.moments|] == d.moments;
    assert r.moments[..|d.moments + act.reports|] == d.moments + act.reports;
    assert Placed(r, ecu, n);
    hide Placed;
    forall k | 0 <= k < n ensures Placed(r, ecu, k) && Behind(r, k) == Behind(d, k) {
      StaysPlaced(d, r, ecu, k);
    }
  }

  lemma TalkLogs(v: U.Conv, c: P.Configs, act: U.Act)
    requires U.Valid(v) && !act.Serve?
    ensures U.Step(v, c, act).log == v.log
  {}

  lemma {:induction false} RunInPlace(d: Diary, ecu: Ecu, acts: seq<Act>)
    requires U.Valid(d.conv) && InPlace(d, ecu) && LegalRun(d, ecu, acts)
    ensures InPlace(Run(d, ecu, acts), ecu)
    decreases |acts|
  {
    hide InPlace, U.Step, U.Legal;
    if acts != [] {
      var act := acts[0];
      if act.Answer? { AnswerInPlace(d, ecu, act); }
      else {
        if act.Talk? { TalkLogs(d.conv, ecu.links, act.act); }
        InPlaceStays(d, Step(d, ecu, act), ecu);
      }
      RunInPlace(Step(d, ecu, act), ecu, acts[1..]);
    }
  }

  /** The one request that clears. */
  lemma ClearIsThisRequest(e: U.Exchange)
    requires U.Right(e)
    ensures Clears(e) <==> e.req == [0x14, 0xFF, 0xFF, 0xFF]
    ensures Clears(e) ==> e.reply == [0x54]
  {
    hide Fits;
    if e.req != [] {
      ClearsExactly(e.srv.(lastRequest := e.now), e.world, e.req, DiagApp.BUFFER_SIZE);
      if Clears(e) { ClearService(e.srv, e.world, e.now, e.req, false, DiagApp.BUFFER_SIZE); }
    }
  }

  /** The k-th request is granted a clear exactly if it is 14 FF FF FF; then it is answered with 54 and clears. */
  ghost predicate ClearStands(d: Diary, k: nat)
    requires k < |d.conv.log| == |d.copied|
  {
    var e := d.conv.log[k];
    var all := e.req == [0x14, 0xFF, 0xFF, 0xFF];
    && (Clears(e) <==> all)
    && (all ==> e.reply == [0x54] && d.copied[k] < |d.moments| && d.moments[d.copied[k]] == Cleared)
  }

  /**
   * What is proved about conversations holds here, and every exchange has its place; it stands for a clear in the
   * timeline exactly if its request was 14 FF FF FF.
   */
  lemma Everywhere(d: Diary, ecu: Ecu)
    requires Reachable(d, ecu)
    ensures U.Reachable(d.conv, ecu.links) && InPlace(d, ecu)
    ensures forall k :: 0 <= k < |d.conv.log| ==> ClearStands(d, k)
  {
    hide Run, LegalRun, U.Run, U.LegalRun;
    var aTx: Buffer, aRx: Buffer, bTx: Buffer, bRx: Buffer, srv: Srv, acts: seq<Act> :|
      && |bTx| >= DiagApp.BUFFER_SIZE
      && LegalRun(Boot(aTx, aRx, bTx, bRx, srv), ecu, acts)
      && d == Run(Boot(aTx, aRx, bTx, bRx, srv), ecu, acts);
    var us := IsConversation(Boot(aTx, aRx, bTx, bRx, srv), ecu, acts);
    RunInPlace(Boot(aTx, aRx, bTx, bRx, srv), ecu, acts);
    EveryClear(d, ecu);
  }

  lemma EveryClear(d: Diary, ecu: Ecu)
    requires U.Reachable(d.conv, ecu.links) && InPlace(d, ecu)
    ensures forall k :: 0 <= k < |d.conv.log| ==> ClearStands(d, k)
  {
    hide U.Reachable, Clears, U.Right, EntriesAt;
    U.EveryExchange(d.conv, ecu.links);
    forall k | 0 <= k < |d.conv.log| ensures ClearStands(d, k) {
      assert Placed(d, ecu, k);
      ClearIsThisRequest(d.conv.log[k]);
    }
  }

  // ---------------------------------------------------------------------------------------------
  // What the client is told
  // ---------------------------------------------------------------------------------------------

  /** The client has received the response to its last request, and this was it. */
  ghost predicate Told(d: Diary, req: Bytes) {
    && |d.conv.sys.a.inds| > d.conv.heard
    && d.conv.sys.a.accepted != [] && d.conv.sys.a.accepted[|d.conv.sys.a.accepted| - 1] == req
  }

  /** What had happened when the server copied the codes for its last answer. */
  ghost function Past(d: Diary): seq<Moment>
    requires d.copied != [] && d.copied[|d.copied| - 1] <= |d.moments|
  {
    d.moments[..d.copied[|d.copied| - 1]]
  }

  /** readDtcs: exactly the codes that match by what had happened, in table order. */
  lemma ReadDtcs(d: Diary, ecu: Ecu, mask: u8)
    requires Reachable(d, ecu) && Told(d, [0x19, 2, mask])
    ensures d.copied != [] && d.copied[|d.copied| - 1] <= |d.moments| && U.Heard(d.conv)
    ensures DtcResult(Final(0x19, Some(U.Response(d.conv))))
            == Success(UdsRoundTrip.Matching(ecu.table, EntriesAt(ecu.table, Past(d)), mask as bv8))
  {
    hide Reachable, U.Reachable, U.Right, DtcResult, Final, UdsRoundTrip.Matching, EntriesAt, Clears;
    Everywhere(d, ecu);
    U.ReadDtcsOverTheBus(d.conv, ecu.links, mask);
    assert Placed(d, ecu, |d.conv.log| - 1);
  }

  /** The confirmed codes: those with a long enough run of failures since the last clear, and no others. */
  lemma ReadConfirmed(d: Diary, ecu: Ecu)
    requires Reachable(d, ecu) && Told(d, [0x19, 2, 0x08])
    ensures d.copied != [] && d.copied[|d.copied| - 1] <= |d.moments| && U.Heard(d.conv)
    ensures var r := DtcResult(Final(0x19, Some(U.Response(d.conv))));
      r.Success? && Codes(r.value) == ConfirmedCodes(ecu.table, Histories(|ecu.table|, Past(d)))
  {
    hide Reachable, U.Heard, DtcResult, Final, UdsRoundTrip.Matching, EntriesAt, Codes, ConfirmedCodes, Histories, Told;
    ReadDtcs(d, ecu, 0x08);
    EntriesRecorded(ecu.table, Past(d));
    MatchingIsConfirmed(ecu.table, EntriesAt(ecu.table, Past(d)), Histories(|ecu.table|, Past(d)));
  }

  /**
   * clearAllDtcs, anything, readDtcs: if the k-th request was a clear and the client now hears which codes are
   * confirmed, it hears exactly the codes that were confirmed by what happened after that clear.
   */
  lemma ClearThenRead(d: Diary, ecu: Ecu, k: nat)
    requires Reachable(d, ecu) && Told(d, [0x19, 2, 0x08])
    requires k < |d.conv.sys.a.accepted| && d.conv.sys.a.accepted[k] == [0x14, 0xFF, 0xFF, 0xFF]
    ensures d.copied != [] && k < |d.copied| && U.Heard(d.conv)
    ensures d.copied[k] < d.copied[|d.copied| - 1] <= |d.moments| && d.moments[d.copied[k]] == Cleared
    ensures var r := DtcResult(Final(0x19, Some(U.Response(d.conv))));
      var since := d.moments[d.copied[k] + 1..d.copied[|d.copied| - 1]];
      r.Success? && Codes(r.value) == ConfirmedCodes(ecu.table, Histories(|ecu.table|, since))
  {
    hide Reachable, U.Reachable, U.Right, DtcResult, Final, EntriesAt, Clears, Codes, ConfirmedCodes, Histories;
    ReadConfirmed(d, ecu);
    Everywhere(d, ecu);
    U.EveryExchange(d.conv, ecu.links);
    var n := |d.conv.log| - 1;
    assert Placed(d, ecu, k) && Placed(d, ecu, n) && ClearStands(d, k);
    assert Behind(d, k) <= d.counted[n];
    SinceClear(|ecu.table|, Past(d), d.copied[k]);
    assert Past(d)[d.copied[k] + 1..] == d.moments[d.copied[k] + 1..d.copied[n]];
  }

  // ---------------------------------------------------------------------------------------------
  // Every request can be answered
  // ---------------------------------------------------------------------------------------------

  ghost function Talks(us: seq<U.Act>): seq<Act> {
    if us == [] then [] else [Talk(us[0])] + Talks(us[1..])
  }

  lemma {:induction false} TalkRun(d: Diary, ecu: Ecu, us: seq<U.Act>)
    requires U.Valid(d.conv) && U.LegalRun(d.conv, ecu.links, us) && forall i :: 0 <= i < |us| ==> us[i].Bus?
    ensures LegalRun(d, ecu, Talks(us)) && Run(d, ecu, Talks(us)) == d.(conv := U.Run(d.conv, ecu.links, us))
    decreases |us|
  {
    hide U.Step, U.Legal;
    if us != [] {
      assert Talks(us)[1..] == Talks(us[1..]) && us[0].Bus?;
      TalkRun(d.(conv := U.Step(d.conv, ecu.links, us[0])), ecu, us[1..]);
    }
  }

  lemma {:induction false} RunThen(d: Diary, ecu: Ecu, a: seq<Act>, b: seq<Act>)
    requires U.Valid(d.conv) && LegalRun(d, ecu, a) && LegalRun(Run(d, ecu, a), ecu, b)
    ensures LegalRun(d, ecu, a + b) && Run(d, ecu, a + b) == Run(Run(d, ecu, a), ecu, b)
    decreases |a|
  {
    hide Step, Legal;
    if a == [] { assert a + b == b; }
    else {
      assert (a + b)[1..] == a[1..] + b && (a + b)[0] == a[0];
      RunThen(Step(d, ecu, a[0]), ecu, a[1..], b);
    }
  }

  /** Suppressed testerPresents in front of the last request are served without a trace. */
  lemma {:induction false} AnswerSilents(d: Diary, ecu: Ecu) returns (acts: seq<Act>)
    requires U.Inv(d.conv, ecu.links) && P.Complete(d.conv.sys, ecu.links) && |ecu.table| <= MAX_ENTRIES
    requires |d.conv.log| < |d.conv.sys.a.accepted|
    ensures LegalRun(d, ecu, acts)
    ensures var r := Run(d, ecu, acts);
      && U.Inv(r.conv, ecu.links) && r.conv == d.conv.(log := r.conv.log) && r.moments == d.moments
      && |r.conv.log| + 1 == |d.conv.sys.a.accepted|
    decreases |d.conv.sys.a.accepted| - |d.conv.log|
  {
    hide P.Inv, P.Complete, U.AllServed, U.AllSent, U.OneAtATime, U.Newest, U.Step, U.Legal, EntriesAt, Clears;
    acts := [];
    if |d.conv.log| + 1 < |d.conv.sys.a.accepted| {
      var act := Answer([], [], d.conv.srv.lastRequest, 0, true, 0);
      U.ServeSilent(d.conv, ecu.links, ServeAct(ecu, d.moments, act));
      var next := Step(d, ecu, act);
      PresentClearsNothing(next.conv.log[|d.conv.log|]);
      assert d.moments + [] == d.moments;
      var rest := AnswerSilents(next, ecu);
      acts := [act] + rest;
    }
  }

  lemma PresentClearsNothing(e: U.Exchange)
    requires e.req == [0x3E, 0x80]
    ensures !Clears(e)
  {
    hide Fits;
  }

  /** The last request is open, and served with this answer it gets a reply that fits the client's buffer. */
  ghost predicate Answerable(d: Diary, ecu: Ecu, act: Act) {
    && act.Answer? && (forall i :: 0 <= i < |act.reports| ==> act.reports[i].Reported?)
    && var v := d.conv; var w := WorldAt(ecu, d.moments, act);
    && |v.log| < |v.sys.a.accepted| && U.Possible(v.sys.a.accepted[|v.sys.a.accepted| - 1], w)
    && 1 <= |U.ReplyTo(v, w, act.now)| <= |v.sys.a.rx.asm.buf|
  }

  /** The client has received this reply since it last asked, and the server gave it for this world. */
  ghost predicate Answered(v: U.Conv, w: World, reply: Bytes) {
    |v.sys.a.inds| > v.heard && U.Heard(v) && U.Last(v).world == w && U.Response(v) == reply
  }

  ghost predicate EndsAnswered(d: Diary, ecu: Ecu, act: Act, acts: seq<Act>) {
    && U.Valid(d.conv) && LegalRun(d, ecu, acts) && Answerable(d, ecu, act)
    && var w := WorldAt(ecu, d.moments, act);
    Answered(Run(d, ecu, acts).conv, w, U.ReplyTo(d.conv, w, act.now))
  }

  /**
   * From every reachable diary whose last request is open, whatever is reported before and during its service: some
   * continuation without timeouts ends with exactly the server's reply at the client.
   */
  lemma AnswerCanArrive(d: Diary, ecu: Ecu, act: Act) returns (acts: seq<Act>)
    requires Reachable(d, ecu) && |ecu.table| <= MAX_ENTRIES && Answerable(d, ecu, act)
    ensures EndsAnswered(d, ecu, act, acts)
  {
    hide P.Inv, P.Complete, Run, LegalRun, Process, U.Possible, U.AllServed, U.AllSent, U.Step, U.Reachable, Reachable,
      U.OneAtATime, U.Newest, U.Right, U.Run, U.LegalRun, EntriesAt, Clears, InPlace;
    Everywhere(d, ecu);
    U.ReachableInv(d.conv, ecu.links);
    var first := U.Settle(d.conv, ecu.links);
    TalkRun(d, ecu, first);
    var there := Run(d, ecu, Talks(first));
    var silent := AnswerSilents(there, ecu);
    RunThen(d, ecu, Talks(first), silent);
    var ready := Run(there, ecu, silent);
    U.RequestIsThere(ready.conv, ecu.links, ServeAct(ecu, ready.moments, act));
    ServeLogs(ready.conv, ecu.links, ServeAct(ecu, ready.moments, act));
    var served := Step(ready, ecu, act);
    var second := U.Settle(served.conv, ecu.links);
    TalkRun(served, ecu, second);
    U.ReplyIsThere(U.Run(served.conv, ecu.links, second), ecu.links);
    Single(ready, ecu, act);
    RunThen(ready, ecu, [act], Talks(second));
    RunThen(d, ecu, Talks(first) + silent, [act] + Talks(second));
    acts := (Talks(first) + silent) + ([act] + Talks(second));
  }

  lemma Single(d: Diary, ecu: Ecu, act: Act)
    requires U.Valid(d.conv) && Legal(d, ecu, act)
    ensures LegalRun(d, ecu, [act]) && Run(d, ecu, [act]) == Step(d, ecu, act)
  {
    hide Legal, Step;
    assert [act][1..] == [];
  }
}
