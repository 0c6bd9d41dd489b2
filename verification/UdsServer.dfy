/**
 * common/uds/uds_server.c: the server as an object that fills a response buffer byte by byte. Every method is
 * proved to do what the functions of `UdsModel` decide.
 */
module UdsServer {
  import opened Words
  import opened Dtc
  import opened DtcManager
  import opened UdsModel

  /** Ctx_t. `wrote` is everything put so far, also what no longer fitted. */
  class Context {
    const req: Bytes
    const resp: array<u8>
    const respMax: u16
    var respLen: u16
    var suppressPositive: bool
    ghost var wrote: Bytes

    ghost predicate Valid()
      reads this`respLen, this`wrote, resp
    {
      respLen <= respMax <= resp.Length && resp[..respLen] == Fit(wrote, respMax)
    }

    constructor (req: Bytes, resp: array<u8>, respMax: u16)
      requires respMax <= resp.Length
      ensures Valid() && wrote == [] && !suppressPositive && respLen == 0
      ensures this.req == req && this.resp == resp && this.respMax == respMax
    {
      this.req, this.resp, this.respMax := req, resp, respMax;
      respLen, suppressPositive, wrote := 0, false, [];
    }

    /** Put */
    method Put(byte: u8) returns (ok: bool)
      requires Valid()
      modifies this`respLen, this`wrote, resp
      ensures Valid() && wrote == old(wrote) + [byte] && (ok <==> old(respLen) < respMax)
    {
      ghost var was := resp[..respLen];
      wrote := wrote + [byte];
      if respLen >= respMax { return false; }
      resp[respLen] := byte;
      respLen := respLen + 1;
      assert resp[..respLen] == was + [byte];
      return true;
    }

    /** Negative */
    method Negative(nrc: u8) returns (n: u16)
      requires respMax <= resp.Length && |req| >= 1
      modifies resp
      ensures n <= respMax && resp[..n] == if respMax < 3 then [] else [SID_NEGATIVE, req[0], nrc]
    {
      if respMax < 3 { return 0; }
      resp[0] := SID_NEGATIVE;
      resp[1] := req[0];
      resp[2] := nrc;
      return 3;
    }
  }

  /** The read function of a data identifier fills exactly `length` bytes, with anything. */
  method ReadValue(out: array<u8>, at: nat, length: u8)
    requires at + length <= out.Length
    modifies out
    ensures out[..at] == old(out[..at]) && out[at + length..] == old(out[at + length..])
  {
    var i := 0;
    while i < length
      invariant 0 <= i <= length
      invariant out[..at] == old(out[..at]) && out[at + length..] == old(out[at + length..])
    {
      out[at + i] := *;
      i := i + 1;
    }
  }

  /** A service's return value, the new state and the response, against the verdict. */
  ghost predicate Outcome(v: Verdict, before: Srv, nrc: u8, after: Srv, built: Bytes, suppress: bool) {
    if nrc != 0 then v == Refuse(nrc) && after == before
    else v.Grant? && after == v.srv && built == v.bytes && suppress == v.suppress
  }

  /** Reports of other tasks only lengthen the histories. */
  ghost predicate Grown(before: seq<seq<Event>>, after: seq<seq<Event>>) {
    |before| == |after| && forall k :: 0 <= k < |before| ==> before[k] <= after[k]
  }

  class Server {
    const dids: seq<Did>
    const dtc: Manager
    var session: u8
    var lastRequestMs: u32
    var pendingReset: u8

    function State(): Srv
      reads this`session, this`lastRequestMs, this`pendingReset
    {
      Srv(session, pendingReset, lastRequestMs)
    }

    /** Uds_Init */
    constructor (dids: seq<Did>, dtc: Manager, now: u32)
      ensures State() == Srv(1, 0, now) && this.dids == dids && this.dtc == dtc
    {
      this.dids, this.dtc := dids, dtc;
      session, pendingReset, lastRequestMs := SESSION_DEFAULT, RESET_NONE, now;
    }

    /** What other tasks may do between two locked accesses to the trouble-code table. */
    method Interfere()
      requires dtc.Valid()
      modifies dtc.entries, dtc`history
      ensures dtc.Valid() && Grown(old(dtc.history), dtc.history)
    {
      var n: nat := *;
      while n > 0
        invariant dtc.Valid() && Grown(old(dtc.history), dtc.history)
      {
        var index: u8, failed: bool := *, *;
        dtc.ReportResult(index, failed);
        n := n - 1;
      }
    }

    /** SessionControl */
    method SessionControl(c: Context) returns (nrc: u8)
      requires c.Valid() && c.wrote == [] && !c.suppressPositive && |c.req| >= 1
      modifies this`session, c, c.resp
      ensures c.Valid()
      ensures nrc == if |c.req| != 2 then 0x13 else if c.req[1] in {0x01, 0x03, 0x81, 0x83} then 0 else 0x12
      ensures Outcome(UdsModel.SessionControl(old(State()), c.req, c.respMax), old(State()), nrc, State(),
                      c.resp[..c.respLen], c.suppressPositive)
    {
      hide Fit, Hi, Lo;
      if |c.req| != 2 { return NRC_INCORRECT_LENGTH; }
      var s := SubFunction(c.req);
      if s != SESSION_DEFAULT && s != SESSION_EXTENDED { return NRC_SUBFUNCTION_NOT_SUPPORTED; }
      session := s;
      c.suppressPositive := Suppress(c.req);
      var _ := c.Put(SID_SESSION_CONTROL + POSITIVE_OFFSET);
      var _ := c.Put(s);
      var _ := c.Put(Hi(P2_MS));
      var _ := c.Put(Lo(P2_MS));
      var _ := c.Put(Hi(P2STAR_MS / 10));
      var _ := c.Put(Lo(P2STAR_MS / 10));
      assert c.wrote == [SID_SESSION_CONTROL + POSITIVE_OFFSET, s, Hi(P2_MS), Lo(P2_MS), Hi(P2STAR_MS / 10),
          Lo(P2STAR_MS / 10)];
      return 0;
    }

    /** EcuReset */
    method EcuReset(c: Context) returns (nrc: u8)
      requires c.Valid() && c.wrote == [] && !c.suppressPositive && |c.req| >= 1
      modifies this`pendingReset, c, c.resp
      ensures c.Valid()
      ensures nrc == if |c.req| != 2 then 0x13 else if c.req[1] !in {0x01, 0x03, 0x81, 0x83} then 0x12
                     else if session != 3 then 0x7E else 0
      ensures Outcome(UdsModel.EcuReset(old(State()), c.req, c.respMax), old(State()), nrc, State(),
                      c.resp[..c.respLen], c.suppressPositive)
    {
      if |c.req| != 2 { return NRC_INCORRECT_LENGTH; }
      var kind := SubFunction(c.req);
      if kind != RESET_HARD && kind != RESET_SOFT { return NRC_SUBFUNCTION_NOT_SUPPORTED; }
      if session != SESSION_EXTENDED { return NRC_SUBFUNC_NOT_IN_SESSION; }
      pendingReset := kind;
      c.suppressPositive := Suppress(c.req);
      var _ := c.Put(SID_ECU_RESET + POSITIVE_OFFSET);
      var _ := c.Put(kind);
      return 0;
    }

    /** ClearDtc */
    method ClearDtc(c: Context) returns (nrc: u8)
      requires c.Valid() && c.wrote == [] && !c.suppressPositive && |c.req| >= 1 && dtc.Valid()
      modifies c, c.resp, dtc.entries, dtc`history
      ensures c.Valid() && dtc.Valid()
      ensures dtc.history == if nrc == 0 then seq(|dtc.table|, _ => []) else old(dtc.history)
      ensures nrc == if |c.req| != 4 then 0x13 else if c.req[1] == c.req[2] == c.req[3] == 0xFF then 0 else 0x31
      ensures Outcome(UdsModel.ClearDtc(old(State()), c.req, c.respMax), old(State()), nrc, State(),
                      c.resp[..c.respLen], c.suppressPositive)
    {
      if |c.req| != 4 { return NRC_INCORRECT_LENGTH; }
      var group: int := c.req[1] as int * 0x10000 + c.req[2] as int * 0x100 + c.req[3];
      if group != 0xFFFFFF { return NRC_OUT_OF_RANGE; }
      dtc.ClearAll();
      var _ := c.Put(SID_CLEAR_DTC + POSITIVE_OFFSET);
      return 0;
    }

    /** TesterPresent */
    method TesterPresent(c: Context) returns (nrc: u8)
      requires c.Valid() && c.wrote == [] && !c.suppressPositive && |c.req| >= 1
      modifies c, c.resp
      ensures c.Valid()
      ensures nrc == if |c.req| != 2 then 0x13 else if c.req[1] in {0x00, 0x80} then 0 else 0x12
      ensures Outcome(UdsModel.TesterPresent(old(State()), c.req, c.respMax), old(State()), nrc, State(),
                      c.resp[..c.respLen], c.suppressPositive)
    {
      if |c.req| != 2 { return NRC_INCORRECT_LENGTH; }
      if SubFunction(c.req) != 0 { return NRC_SUBFUNCTION_NOT_SUPPORTED; }
      c.suppressPositive := Suppress(c.req);
      var _ := c.Put(SID_TESTER_PRESENT + POSITIVE_OFFSET);
      var _ := c.Put(0);
      return 0;
    }

    /** ReadDtc: between counting and copying, other tasks may report. */
    method ReadDtc(c: Context) returns (nrc: u8, ghost counted: seq<Entry>, ghost copied: seq<Entry>)
      requires c.Valid() && c.wrote == [] && !c.suppressPositive && |c.req| >= 1 && dtc.Valid()
      modifies c, c.resp, dtc.entries, dtc`history
      ensures dtc.Valid() && Grown(old(dtc.history), dtc.history) && c.respLen <= c.respMax
      ensures counted == old(dtc.Entries()) && copied == dtc.Entries()
      ensures Outcome(UdsModel.ReadDtc(old(State()), World(dids, dtc.table, counted, copied, []), c.req, c.respMax),
                      old(State()), nrc, State(), c.resp[..c.respLen], c.suppressPositive)
    {
      hide MatchRecords, MatchCount, Fit, Room, Replay, Hi, Lo;
      counted, copied := dtc.Entries(), dtc.Entries();
      if |c.req| < 2 { return NRC_INCORRECT_LENGTH, counted, copied; }
      var sub := SubFunction(c.req);
      if sub != 1 && sub != 2 { return NRC_SUBFUNCTION_NOT_SUPPORTED, counted, copied; }
      if |c.req| != 3 { return NRC_INCORRECT_LENGTH, counted, copied; }
      var mask := c.req[2] as bv8;
      var _ := c.Put(SID_READ_DTC + POSITIVE_OFFSET);
      var _ := c.Put(sub);
      var _ := c.Put(MASK_0X7F);
      assert c.wrote == DtcHeader(sub);
      if sub == 1 {
        nrc := PutCount(c, mask);
      } else {
        nrc, copied := PutRecords(c, mask);
      }
    }

    method PutCount(c: Context, mask: bv8) returns (nrc: u8)
      requires c.Valid() && dtc.Valid()
      modifies c`respLen, c`wrote, c.resp
      ensures c.Valid() && nrc == 0
      ensures var n := MatchCount(dtc.Entries(), mask); n <= MAX_ENTRIES && c.wrote == old(c.wrote) + [1, Hi(n), Lo(n)]
    {
      var count := dtc.CountByStatusMask(mask);
      var _ := c.Put(1);
      var _ := c.Put(Hi(count));
      var _ := c.Put(Lo(count));
      return 0;
    }

    method PutRecords(c: Context, mask: bv8) returns (nrc: u8, ghost copied: seq<Entry>)
      requires c.Valid() && dtc.Valid() && |c.wrote| == 3
      modifies c`respLen, c.resp, dtc.entries, dtc`history
      ensures dtc.Valid() && Grown(old(dtc.history), dtc.history) && copied == dtc.Entries()
      ensures nrc == if MatchCount(old(dtc.Entries()), mask) > Room(c.respMax) then NRC_RESPONSE_TOO_LONG else 0
      ensures c.respLen <= c.respMax
      ensures nrc == 0 ==>
        var records := MatchRecords(dtc.table, copied, mask);
        var n := 4 * Room(c.respMax);
        c.resp[..c.respLen] == Fit(c.wrote, c.respMax) + (if |records| <= n then records else records[..n])
    {
      hide MatchRecords, MatchCount, Fit, Written, Replay;
      var room := (c.respMax - c.respLen) / 4;
      var maxRecords: u8 := if room > 0xFF then 0xFF else room;
      var count := dtc.CountByStatusMask(mask);
      Interfere();
      copied := dtc.Entries();
      if count > maxRecords { return NRC_RESPONSE_TOO_LONG, copied; }
      ghost var was := c.resp[..];
      var n := dtc.GetByStatusMask(mask, c.resp, c.respLen, maxRecords);
      WrittenTail(was, c.resp[..], c.respLen, MatchRecords(dtc.table, copied, mask)[..4 * n]);
      c.respLen := c.respLen + 4 * n;
      return 0, copied;
    }

    /** FindDid */
    method FindDid(id: u16) returns (found: Option<u8>)
      ensures found == Find(dids, id)
    {
      var i := 0;
      while i < |dids|
        invariant 0 <= i <= |dids| && Find(dids, id) == Find(dids[i..], id)
      {
        if dids[i].id == id { return Some(dids[i].length); }
        i := i + 1;
      }
      return None;
    }

    /** ReadDid */
    method ReadDid(c: Context) returns (nrc: u8, ghost data: seq<Bytes>)
      requires c.Valid() && c.wrote == [] && !c.suppressPositive && |c.req| >= 1 && c.resp.Length < TWO16
      modifies c, c.resp
      ensures c.respLen <= c.respMax && !c.suppressPositive
      ensures DidOutcome(dids, c.req, c.respMax, nrc, data, c.resp[..c.respLen])
    {
      hide Fit, Known, Space, Encode, Ids, Answers, Gathered, DidOutcome;
      data := [];
      if |c.req| < 3 || (|c.req| - 1) % 2 != 0 {
        RefusedLength(dids, c.req, c.respMax, c.resp[..c.respLen]);
        return NRC_INCORRECT_LENGTH, data;
      }
      ghost var ids := Ids(c.req[1..]);
      var nDids := (|c.req| - 1) / 2;
      var _ := c.Put(SID_READ_DID + POSITIVE_OFFSET);
      assert c.wrote == [SID_READ_DID + POSITIVE_OFFSET];
      var i, anyFound := 0, false;
      GatheredNone(dids, ids, c.respMax, c.resp[..c.respLen]);
      while i < nDids
        invariant 0 <= i <= nDids == |ids| && c.respLen <= c.respMax && !c.suppressPositive
        invariant Gathered(dids, ids, i, c.respMax, data, anyFound, c.resp[..c.respLen])
      {
        var id := c.req[1 + 2 * i] as int * 0x100 + c.req[2 + 2 * i];
        IdsAt(c.req[1..], i);
        var did := FindDid(id);
        if did.None? {
          GatheredSkip(dids, ids, i, c.respMax, data, anyFound, c.resp[..c.respLen]);
        } else {
          if c.respLen + 2 + did.value > c.respMax {
            GatheredTooLong(dids, c.req, i, c.respMax, data, anyFound, c.resp[..c.respLen], did.value);
            return NRC_RESPONSE_TOO_LONG, data;
          }
          ghost var was := c.resp[..c.respLen];
          AppendDid(c, id, did.value);
          GatheredNext(dids, ids, i, c.respMax, data, anyFound, was, c.resp[c.respLen - did.value..c.respLen]);
          data := data + [c.resp[c.respLen - did.value..c.respLen]];
          anyFound := true;
        }
        i := i + 1;
      }
      GatheredAll(dids, c.req, c.respMax, data, anyFound, c.resp[..c.respLen]);
      nrc := if anyFound then 0 else NRC_OUT_OF_RANGE;
    }

    /** The body of ReadDid's loop for a known identifier that fits. */
    method AppendDid(c: Context, id: u16, length: u8)
      requires c.respLen + 2 + length <= c.respMax <= c.resp.Length
      modifies c`respLen, c`wrote, c.resp
      ensures c.respLen == old(c.respLen) + 2 + length
      ensures c.resp[..c.respLen] == old(c.resp[..c.respLen]) + [Hi(id), Lo(id)] + c.resp[c.respLen - length..c.respLen]
    {
      hide Fit, Hi, Lo;
      ghost var was := c.resp[..c.respLen];
      c.wrote := was;
      FitWhole(was, c.respMax);
      var _ := c.Put(Hi(id));
      FitWhole(c.wrote, c.respMax);
      var _ := c.Put(Lo(id));
      FitWhole(c.wrote, c.respMax);
      ReadValue(c.resp, c.respLen, length);
      c.respLen := c.respLen + length;
      assert c.resp[..c.respLen] == c.resp[..c.respLen - length] + c.resp[c.respLen - length..c.respLen];
    }

    /** The switch of Uds_ProcessRequest. */
    method Dispatch(c: Context) returns (nrc: u8, ghost w: World)
      requires c.Valid() && c.wrote == [] && !c.suppressPositive && |c.req| >= 1 && dtc.Valid() && c.resp.Length < TWO16
      modifies this`session, this`pendingReset, c, c.resp, dtc.entries, dtc`history
      ensures dtc.Valid() && c.respLen <= c.respMax && Fits(w, c.req)
      ensures w.dids == dids && w.table == dtc.table
      ensures DtcEffect(c.req, nrc, old(dtc.history), dtc.history)
      ensures c.req[0] == SID_READ_DTC ==> w.counted == old(dtc.Entries()) && w.copied == dtc.Entries()
      ensures Outcome(Decide(old(State()), w, c.req, c.respMax), old(State()), nrc, State(), c.resp[..c.respLen],
          c.suppressPositive)
    {
      hide Outcome, Known, Ids, Answers, Replay, UdsModel.SessionControl, UdsModel.EcuReset, UdsModel.ClearDtc,
        UdsModel.ReadDtc, UdsModel.ReadDid, UdsModel.TesterPresent;
      ghost var s, none := State(), Filler(dids, c.req);
      w := World(dids, dtc.table, [], [], none);
      match c.req[0]
      case 0x10 => nrc := SessionControl(c);
      case 0x11 => nrc := EcuReset(c);
      case 0x14 => nrc := ClearDtc(c);
      case 0x19 =>
        ghost var counted, copied;
        nrc, counted, copied := ReadDtc(c);
        w := World(dids, dtc.table, counted, copied, none);
        ReadDtcIgnores(s, w, [], c.req, c.respMax);
      case 0x22 =>
        ghost var data;
        nrc, data := ReadDid(c);
        w := w.(data := DidData(dids, c.req, nrc, c.respMax, data, c.resp[..c.respLen]));
        DidVerdict(s, w, c.req, c.respMax, nrc, data, c.resp[..c.respLen]);
      case 0x3E => nrc := TesterPresent(c);
      case _ =>
        nrc := NRC_SERVICE_NOT_SUPPORTED;
        OutcomeRefused(s, nrc, c.resp[..c.respLen], c.suppressPositive);
    }

    /**
     * Uds_ProcessRequest. `w` records what the server saw of the world: for service 0x19 the table as it was when
     * the codes were counted and when they were copied, for 0x22 the values the read functions returned.
     */
    method ProcessRequest(req: Bytes, functional: bool, resp: array<u8>, respMax: u16, now: u32)
      returns (n: u16, ghost w: World)
      requires dtc.Valid() && respMax <= resp.Length < TWO16
      modifies this`session, this`pendingReset, this`lastRequestMs, resp, dtc.entries, dtc`history
      ensures dtc.Valid() && n <= respMax && (|req| >= 1 ==> Fits(w, req)) && w.dids == dids && w.table == dtc.table
      ensures (State(), resp[..n]) == Process(old(State()), w, now, req, functional, respMax)
      ensures |req| >= 1 ==>
        DtcEffect(req, if Granted(old(State()), w, now, req, respMax) then 0 else 1, old(dtc.history), dtc.history)
      ensures |req| >= 1 && req[0] == SID_READ_DTC ==> w.counted == old(dtc.Entries()) && w.copied == dtc.Entries()
      ensures req == [] ==> dtc.history == old(dtc.history)
      ensures req == [0x14, 0xFF, 0xFF, 0xFF] ==> dtc.history == seq(|dtc.table|, _ => [])
      ensures req != [0x14, 0xFF, 0xFF, 0xFF] ==> Grown(old(dtc.history), dtc.history)
      ensures req != [] && req != [0x14, 0xFF, 0xFF, 0xFF] && req[0] != 0x19 ==> dtc.history == old(dtc.history)
    {
      hide Decide, Fits, Known, Ids, Replay;
      w := World(dids, dtc.table, [], [], []);
      if |req| == 0 { return 0, w; }
      var c := new Context(req, resp, respMax);
      lastRequestMs := now;
      ghost var s := State();
      var nrc;
      nrc, w := Dispatch(c);
      ClearsExactly(s, w, req, respMax);
      if nrc != 0 {
        if functional && Quiet(nrc) { return 0, w; }
        n := c.Negative(nrc);
        return n, w;
      }
      return if c.suppressPositive then 0 else c.respLen, w;
    }

    /** Uds_MainFunction */
    method MainFunction(now: u32)
      modifies this`session
      ensures State() == Expire(old(State()), now)
      ensures session == if Elapsed(now, lastRequestMs) >= 5000 then 1 else old(session)
    {
      if session == SESSION_DEFAULT { return; }
      if Elapsed(now, lastRequestMs) >= S3_MS { session := SESSION_DEFAULT; }
    }

    /** Uds_ExecutePendingReset; the result is the argument of the reset callback, if it is called. */
    method ExecutePendingReset() returns (reset: Option<u8>)
      modifies this`pendingReset, this`session
      ensures (State(), reset) == TakeReset(old(State()))
      ensures reset == if old(pendingReset) == 0 then None else Some(old(pendingReset))
      ensures pendingReset == 0 && session == if reset.None? then old(session) else 1
    {
      var kind := pendingReset;
      if kind == RESET_NONE { return None; }
      pendingReset := RESET_NONE;
      session := SESSION_DEFAULT;
      return Some(kind);
    }
  }

  ghost predicate Granted(s: Srv, w: World, now: u32, req: Bytes, respMax: u16)
    requires |req| >= 1 && Fits(w, req)
  {
    Decide(s.(lastRequest := now), w, req, respMax).Grant?
  }

  /** What a request does to the trouble codes, with what other tasks report meanwhile. */
  ghost predicate DtcEffect(req: Bytes, nrc: u8, before: seq<seq<Event>>, after: seq<seq<Event>>)
    requires |req| >= 1
  {
    if req[0] == SID_CLEAR_DTC && nrc == 0 then after == seq(|before|, _ => [])
    else if req[0] == SID_READ_DTC then Grown(before, after)
    else after == before
  }

  /** Values for read functions that are never called. */
  ghost function Filler(dids: seq<Did>, req: Bytes): (data: seq<Bytes>)
    requires |req| >= 1
    ensures Answers(dids, Known(dids, Ids(req[1..])), data)
  {
    var known := Known(dids, Ids(req[1..]));
    seq(|known|, i requires 0 <= i < |known| => seq(Find(dids, known[i]).value, _ => 0))
  }

  ghost function DidData(dids: seq<Did>, req: Bytes, nrc: u8, respMax: u16, data: seq<Bytes>, built: Bytes)
    : (r: seq<Bytes>)
    requires |req| >= 1 && DidOutcome(dids, req, respMax, nrc, data, built)
    ensures Answers(dids, Known(dids, Ids(req[1..])), r) && (nrc == 0 ==> r == data)
  {
    if nrc == 0 then data else Filler(dids, req)
  }

  lemma DidVerdict(s: Srv, w: World, req: Bytes, respMax: u16, nrc: u8, data: seq<Bytes>, built: Bytes)
    requires |req| >= 1 && DidOutcome(w.dids, req, respMax, nrc, data, built)
    requires Answers(w.dids, Known(w.dids, Ids(req[1..])), w.data) && (nrc == 0 ==> w.data == data)
    ensures Outcome(UdsModel.ReadDid(s, w, req, respMax), s, nrc, s, built, false)
  {
    hide Known, Ids, Space, Encode, Answers;
  }

  lemma ReadDtcIgnores(s: Srv, w: World, data: seq<Bytes>, req: Bytes, respMax: u16)
    requires |w.counted| <= |w.table| <= MAX_ENTRIES && |w.copied| <= |w.table|
    ensures UdsModel.ReadDtc(s, w, req, respMax) == UdsModel.ReadDtc(s, w.(data := data), req, respMax)
  {}

  lemma OutcomeRefused(s: Srv, nrc: u8, built: Bytes, suppress: bool)
    requires nrc != 0
    ensures Outcome(Refuse(nrc), s, nrc, s, built, suppress)
  {}

  lemma FitWhole(b: Bytes, respMax: u16)
    requires |b| <= respMax
    ensures Fit(b, respMax) == b
  {}

  // ---------------------------------------------------------------------------------------------
  // The loop of ReadDid
  // ---------------------------------------------------------------------------------------------

  /** The service's result against its verdict, for the values the read functions returned. */
  ghost predicate DidOutcome(dids: seq<Did>, req: Bytes, respMax: u16, nrc: u8, data: seq<Bytes>, built: Bytes)
    requires |req| >= 1
  {
    var known := Known(dids, Ids(req[1..]));
    if |req| < 3 || |req| % 2 == 0 then nrc == NRC_INCORRECT_LENGTH
    else if known == [] then nrc == NRC_OUT_OF_RANGE
    else if 1 + Space(dids, known) > respMax then nrc == NRC_RESPONSE_TOO_LONG
    else nrc == 0 && Answers(dids, known, data) && built == [SID_READ_DID + POSITIVE_OFFSET] + Encode(known, data)
  }

  /** After i identifiers: what has been read and built. */
  ghost predicate Gathered(dids: seq<Did>, ids: seq<u16>, i: nat, respMax: u16, data: seq<Bytes>, any: bool,
      built: Bytes) {
    && i <= |ids|
    && var known := Known(dids, ids[..i]);
    && Answers(dids, known, data) && (any <==> known != [])
    && built == Fit([SID_READ_DID + POSITIVE_OFFSET] + Encode(known, data), respMax)
    && (any ==> 1 + Space(dids, known) <= respMax)
  }

  lemma {:induction false} IdsAt(b: Bytes, i: nat)
    requires 2 * i + 1 < |b|
    ensures Ids(b)[i] == b[2 * i] as int * 0x100 + b[2 * i + 1]
    decreases i
  {
    if i > 0 { IdsAt(b[2..], i - 1); }
  }

  lemma KnownNext(dids: seq<Did>, ids: seq<u16>, i: nat)
    requires i < |ids|
    ensures Known(dids, ids[..i + 1])
         == if Find(dids, ids[i]).Some? then Known(dids, ids[..i]) + [ids[i]] else Known(dids, ids[..i])
  {
    assert ids[..i + 1][..i] == ids[..i];
  }

  lemma EncodeNext(known: seq<u16>, data: seq<Bytes>, id: u16, value: Bytes)
    requires |known| == |data|
    ensures Encode(known + [id], data + [value]) == Encode(known, data) + [Hi(id), Lo(id)] + value
  {
    assert (known + [id])[..|known|] == known && (data + [value])[..|data|] == data;
  }

  lemma SpaceNext(dids: seq<Did>, known: seq<u16>, id: u16)
    requires (forall k :: k in known ==> Find(dids, k).Some?) && Find(dids, id).Some?
    ensures Space(dids, known + [id]) == Space(dids, known) + 2 + Find(dids, id).value
  {
    assert (known + [id])[..|known|] == known;
  }

  /** Identifiers further on only add to the space needed. */
  lemma {:induction false} SpaceGrows(dids: seq<Did>, ids: seq<u16>, i: nat)
    requires i <= |ids|
    ensures Space(dids, Known(dids, ids[..i])) <= Space(dids, Known(dids, ids))
    ensures |Known(dids, ids[..i])| <= |Known(dids, ids)|
    decreases |ids|
  {
    if i == |ids| { assert ids[..i] == ids; }
    else {
      var n := |ids| - 1;
      SpaceGrows(dids, ids[..n], i);
      assert ids[..n][..i] == ids[..i];
      if Find(dids, ids[n]).Some? { SpaceNext(dids, Known(dids, ids[..n]), ids[n]); }
    }
  }

  lemma RefusedLength(dids: seq<Did>, req: Bytes, respMax: u16, built: Bytes)
    requires |req| >= 1 && (|req| < 3 || (|req| - 1) % 2 != 0)
    ensures DidOutcome(dids, req, respMax, NRC_INCORRECT_LENGTH, [], built)
  {}

  lemma GatheredNone(dids: seq<Did>, ids: seq<u16>, respMax: u16, built: Bytes)
    requires built == Fit([SID_READ_DID + POSITIVE_OFFSET], respMax)
    ensures Gathered(dids, ids, 0, respMax, [], false, built)
  {
    assert [SID_READ_DID + POSITIVE_OFFSET] + Encode([], []) == [SID_READ_DID + POSITIVE_OFFSET];
  }

  lemma GatheredSkip(dids: seq<Did>, ids: seq<u16>, i: nat, respMax: u16, data: seq<Bytes>, any: bool, built: Bytes)
    requires i < |ids| && Gathered(dids, ids, i, respMax, data, any, built) && Find(dids, ids[i]).None?
    ensures Gathered(dids, ids, i + 1, respMax, data, any, built)
  {
    hide Known, Encode, Space, Fit, Answers;
    KnownNext(dids, ids, i);
  }

  /** How much of the buffer is used, given that everything known so far fitted. */
  lemma BuiltLength(dids: seq<Did>, ids: seq<u16>, i: nat, respMax: u16, data: seq<Bytes>, any: bool, built: Bytes)
    requires Gathered(dids, ids, i, respMax, data, any, built)
    ensures var whole := [SID_READ_DID + POSITIVE_OFFSET] + Encode(Known(dids, ids[..i]), data);
      |whole| == 1 + Space(dids, Known(dids, ids[..i])) && (respMax > 0 ==> built == whole)
          && (respMax == 0 ==> built == [])
  {
    EncodeLength(dids, Known(dids, ids[..i]), data);
    hide Known, Answers;
    assert respMax > 0 ==> 1 + Space(dids, Known(dids, ids[..i])) <= respMax;
  }

  lemma GatheredNext(dids: seq<Did>, ids: seq<u16>, i: nat, respMax: u16, data: seq<Bytes>, any: bool, built: Bytes,
      value: Bytes)
    requires i < |ids| && Gathered(dids, ids, i, respMax, data, any, built)
    requires Find(dids, ids[i]) == Some(|value|) && |built| + 2 + |value| <= respMax
    ensures Gathered(dids, ids, i + 1, respMax, data + [value], true, built + [Hi(ids[i]), Lo(ids[i])] + value)
  {
    hide Encode, Space, Known;
    var known := Known(dids, ids[..i]);
    KnownNext(dids, ids, i);
    BuiltLength(dids, ids, i, respMax, data, any, built);
    EncodeNext(known, data, ids[i], value);
    SpaceNext(dids, known, ids[i]);
    var head := [SID_READ_DID + POSITIVE_OFFSET];
    assert head + (Encode(known, data) + [Hi(ids[i]), Lo(ids[i])] + value) == built + [Hi(ids[i]), Lo(ids[i])] + value;
  }

  lemma GatheredTooLong(dids: seq<Did>, req: Bytes, i: nat, respMax: u16, data: seq<Bytes>, any: bool, built: Bytes,
      length: u8)
    requires |req| >= 3 && |req| % 2 == 1
    requires var ids := Ids(req[1..]);
      i < |ids| && Gathered(dids, ids, i, respMax, data, any, built) && Find(dids, ids[i]) == Some(length)
    requires |built| + 2 + length > respMax
    ensures DidOutcome(dids, req, respMax, NRC_RESPONSE_TOO_LONG, data, built)
  {
    hide Encode, Space, Known, Ids;
    var ids := Ids(req[1..]);
    KnownNext(dids, ids, i);
    BuiltLength(dids, ids, i, respMax, data, any, built);
    SpaceNext(dids, Known(dids, ids[..i]), ids[i]);
    SpaceGrows(dids, ids, i + 1);
  }

  lemma GatheredAll(dids: seq<Did>, req: Bytes, respMax: u16, data: seq<Bytes>, any: bool, built: Bytes)
    requires |req| >= 3 && |req| % 2 == 1
    requires Gathered(dids, Ids(req[1..]), |Ids(req[1..])|, respMax, data, any, built)
    ensures DidOutcome(dids, req, respMax, if any then 0 else NRC_OUT_OF_RANGE, data, built)
  {
    hide Encode, Space, Known, Ids, Answers;
    var ids := Ids(req[1..]);
    assert ids[..|ids|] == ids;
    BuiltLength(dids, ids, |ids|, respMax, data, any, built);
  }

  lemma WrittenTail(was: seq<u8>, now: seq<u8>, at: nat, data: seq<u8>)
    requires Written(was, now, at, data)
    ensures now[..at + |data|] == was[..at] + data
  {}
}
