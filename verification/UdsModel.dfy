/**
 * common/uds/uds_server.c as functions on values: what the server decides for one request.
 *
 * Calls that leave the server are carried by a `World`: the trouble-code table, the entries at the moments the
 * two separately locked accesses of service 0x19 see them, and what the data identifiers' read functions return.
 */
module UdsModel {
  import opened Words
  import opened Dtc
  import opened DtcManager

  const SID_SESSION_CONTROL: u8 := 0x10
  const SID_ECU_RESET: u8 := 0x11
  const SID_CLEAR_DTC: u8 := 0x14
  const SID_READ_DTC: u8 := 0x19
  const SID_READ_DID: u8 := 0x22
  const SID_TESTER_PRESENT: u8 := 0x3E
  const SID_NEGATIVE: u8 := 0x7F
  const POSITIVE_OFFSET: u8 := 0x40

  const NRC_SERVICE_NOT_SUPPORTED: u8 := 0x11
  const NRC_SUBFUNCTION_NOT_SUPPORTED: u8 := 0x12
  const NRC_INCORRECT_LENGTH: u8 := 0x13
  const NRC_RESPONSE_TOO_LONG: u8 := 0x14
  const NRC_OUT_OF_RANGE: u8 := 0x31
  const NRC_SUBFUNC_NOT_IN_SESSION: u8 := 0x7E
  const NRC_SERVICE_NOT_IN_SESSION: u8 := 0x7F

  const SESSION_DEFAULT: u8 := 1
  const SESSION_EXTENDED: u8 := 3
  const RESET_NONE: u8 := 0
  const RESET_HARD: u8 := 1
  const RESET_SOFT: u8 := 3
  const P2_MS: int := 50
  const P2STAR_MS: int := 5000
  const S3_MS: int := 5000
  const MASK_0X7F: u8 := 0x7F

  type Bytes = seq<u8>

  datatype Did = Did(id: u16, length: u8)

  datatype Srv = Srv(session: u8, pending: u8, lastRequest: u32)

  datatype World = World(dids: seq<Did>, table: seq<Config>, counted: seq<Entry>, copied: seq<Entry>, data: seq<Bytes>)

  /** The verdict on a request: an NRC, or the new state and the positive response. */
  datatype Verdict =
    | Refuse(nrc: u8)
    | Grant(srv: Srv, clear: bool, bytes: Bytes, suppress: bool)

  function Hi(x: u16): u8 { x / 0x100 }
  function Lo(x: u16): u8 { x % 0x100 }

  /** A response written byte by byte into a buffer that may be too small. */
  function Fit(b: Bytes, respMax: u16): (r: Bytes)
    ensures |r| <= respMax && r <= b && (r == b || |r| == respMax)
  {
    if |b| <= respMax then b else b[..respMax]
  }

  function SubFunction(req: Bytes): u8
    requires |req| >= 2
  {
    req[1] % 0x80
  }

  function Suppress(req: Bytes): bool
    requires |req| >= 2
  {
    req[1] >= 0x80
  }

  function SessionControl(s: Srv, req: Bytes, respMax: u16): Verdict {
    if |req| != 2 then Refuse(NRC_INCORRECT_LENGTH)
    else
      var session := SubFunction(req);
      if session != SESSION_DEFAULT && session != SESSION_EXTENDED then Refuse(NRC_SUBFUNCTION_NOT_SUPPORTED)
      else Grant(s.(session := session), false,
                 Fit([SID_SESSION_CONTROL + POSITIVE_OFFSET, session,
                      Hi(P2_MS), Lo(P2_MS), Hi(P2STAR_MS / 10), Lo(P2STAR_MS / 10)], respMax),
                 Suppress(req))
  }

  function EcuReset(s: Srv, req: Bytes, respMax: u16): Verdict {
    if |req| != 2 then Refuse(NRC_INCORRECT_LENGTH)
    else
      var kind := SubFunction(req);
      if kind != RESET_HARD && kind != RESET_SOFT then Refuse(NRC_SUBFUNCTION_NOT_SUPPORTED)
      else if s.session != SESSION_EXTENDED then Refuse(NRC_SUBFUNC_NOT_IN_SESSION)
      else Grant(s.(pending := kind), false, Fit([SID_ECU_RESET + POSITIVE_OFFSET, kind], respMax), Suppress(req))
  }

  function ClearDtc(s: Srv, req: Bytes, respMax: u16): Verdict {
    if |req| != 4 then Refuse(NRC_INCORRECT_LENGTH)
    else if req[1..] != [0xFF, 0xFF, 0xFF] then Refuse(NRC_OUT_OF_RANGE)
    else Grant(s, true, Fit([SID_CLEAR_DTC + POSITIVE_OFFSET], respMax), false)
  }

  /** How many records the response buffer has room for behind the three header bytes. */
  function Room(respMax: u16): u8 {
    var room := (respMax - (if respMax < 3 then respMax else 3)) / 4;
    if room > 0xFF then 0xFF else room
  }

  function DtcHeader(sub: u8): Bytes { [SID_READ_DTC + POSITIVE_OFFSET, sub, MASK_0X7F] }

  function ReadDtc(s: Srv, w: World, req: Bytes, respMax: u16): Verdict
    requires |w.counted| <= |w.table| <= MAX_ENTRIES && |w.copied| <= |w.table|
  {
    if |req| < 2 then Refuse(NRC_INCORRECT_LENGTH)
    else
      var sub := SubFunction(req);
      if sub != 1 && sub != 2 then Refuse(NRC_SUBFUNCTION_NOT_SUPPORTED)
      else if |req| != 3 then Refuse(NRC_INCORRECT_LENGTH)
      else
        var mask := req[2] as bv8;
        var count := MatchCount(w.counted, mask);
        if sub == 1 then Grant(s, false, Fit(DtcHeader(1) + [1, Hi(count), Lo(count)], respMax), false)
        else if count > Room(respMax) then Refuse(NRC_RESPONSE_TOO_LONG)
        else
          var records := MatchRecords(w.table, w.copied, mask);
          var n := 4 * Room(respMax);
          Grant(s, false, Fit(DtcHeader(2), respMax) + (if |records| <= n then records else records[..n]), false)
  }

  /** FindDid: the length the table gives an identifier; the first entry counts. */
  function Find(dids: seq<Did>, id: u16): Option<u8> {
    if dids == [] then None else if dids[0].id == id then Some(dids[0].length) else Find(dids[1..], id)
  }

  /** The identifiers of a request, behind its first byte. */
  function Ids(b: Bytes): (r: seq<u16>)
    ensures |r| == |b| / 2
  {
    if |b| < 2 then [] else [b[0] as int * 0x100 + b[1]] + Ids(b[2..])
  }

  /** The requested identifiers that the table knows, in request order. */
  function Known(dids: seq<Did>, ids: seq<u16>): (r: seq<u16>)
    ensures |r| <= |ids| && forall id :: id in r ==> Find(dids, id).Some?
  {
    if ids == [] then []
    else
      var r := Known(dids, ids[..|ids| - 1]);
      if Find(dids, ids[|ids| - 1]).Some? then r + [ids[|ids| - 1]] else r
  }

  /** The bytes of a response: each identifier followed by its data. */
  function Encode(ids: seq<u16>, data: seq<Bytes>): Bytes
    requires |ids| == |data|
  {
    if ids == [] then []
    else
      var n := |ids| - 1;
      Encode(ids[..n], data[..n]) + [Hi(ids[n]), Lo(ids[n])] + data[n]
  }

  /** The space the known identifiers need. */
  function Space(dids: seq<Did>, known: seq<u16>): nat
    requires forall id :: id in known ==> Find(dids, id).Some?
  {
    if known == [] then 0
    else Space(dids, known[..|known| - 1]) + 2 + Find(dids, known[|known| - 1]).value
  }

  /** Every read function fills exactly its length. */
  ghost predicate Answers(dids: seq<Did>, known: seq<u16>, data: seq<Bytes>)
    requires forall id :: id in known ==> Find(dids, id).Some?
  {
    |data| == |known| && forall i :: 0 <= i < |known| ==> |data[i]| == Find(dids, known[i]).value
  }

  ghost function ReadDid(s: Srv, w: World, req: Bytes, respMax: u16): Verdict
    requires |req| >= 1 && Answers(w.dids, Known(w.dids, Ids(req[1..])), w.data)
  {
    if |req| < 3 || |req| % 2 == 0 then Refuse(NRC_INCORRECT_LENGTH)
    else
      var known := Known(w.dids, Ids(req[1..]));
      if known == [] then Refuse(NRC_OUT_OF_RANGE)
      else if 1 + Space(w.dids, known) > respMax then Refuse(NRC_RESPONSE_TOO_LONG)
      else Grant(s, false, [SID_READ_DID + POSITIVE_OFFSET] + Encode(known, w.data), false)
  }

  function TesterPresent(s: Srv, req: Bytes, respMax: u16): Verdict {
    if |req| != 2 then Refuse(NRC_INCORRECT_LENGTH)
    else if SubFunction(req) != 0 then Refuse(NRC_SUBFUNCTION_NOT_SUPPORTED)
    else Grant(s, false, Fit([SID_TESTER_PRESENT + POSITIVE_OFFSET, 0], respMax), Suppress(req))
  }

  ghost predicate Fits(w: World, req: Bytes)
    requires |req| >= 1
  {
    && |w.counted| <= |w.table| <= MAX_ENTRIES && |w.copied| <= |w.table|
    && Answers(w.dids, Known(w.dids, Ids(req[1..])), w.data)
  }

  ghost function Decide(s: Srv, w: World, req: Bytes, respMax: u16): Verdict
    requires |req| >= 1 && Fits(w, req)
  {
    match req[0]
    case 0x10 => SessionControl(s, req, respMax)
    case 0x11 => EcuReset(s, req, respMax)
    case 0x14 => ClearDtc(s, req, respMax)
    case 0x19 => ReadDtc(s, w, req, respMax)
    case 0x22 => ReadDid(s, w, req, respMax)
    case 0x3E => TesterPresent(s, req, respMax)
    case _ => Refuse(NRC_SERVICE_NOT_SUPPORTED)
  }

  /** IsSuppressedForFunctional */
  predicate Quiet(nrc: u8) {
    nrc == NRC_SERVICE_NOT_SUPPORTED || nrc == NRC_SUBFUNCTION_NOT_SUPPORTED || nrc == NRC_OUT_OF_RANGE
    || nrc == NRC_SUBFUNC_NOT_IN_SESSION || nrc == NRC_SERVICE_NOT_IN_SESSION
  }

  /** What is sent back; the empty sequence means nothing. */
  function Reply(v: Verdict, req: Bytes, functional: bool, respMax: u16): Bytes
    requires |req| >= 1
  {
    match v
    case Refuse(nrc) => if (functional && Quiet(nrc)) || respMax < 3 then [] else [SID_NEGATIVE, req[0], nrc]
    case Grant(_, _, bytes, suppress) => if suppress then [] else bytes
  }

  /** The state after a request; any request restarts the S3 timer. */
  function Next(s: Srv, v: Verdict): Srv { if v.Grant? then v.srv else s }

  ghost function Process(s: Srv, w: World, now: u32, req: Bytes, functional: bool, respMax: u16): (Srv, Bytes)
    requires |req| >= 1 ==> Fits(w, req)
  {
    if req == [] then (s, [])
    else
      var s1 := s.(lastRequest := now);
      var v := Decide(s1, w, req, respMax);
      (Next(s1, v), Reply(v, req, functional, respMax))
  }

  /** Uds_MainFunction */
  function Expire(s: Srv, now: u32): Srv {
    if s.session != SESSION_DEFAULT && Elapsed(now, s.lastRequest) >= S3_MS then s.(session := SESSION_DEFAULT) else s
  }

  /** Uds_ExecutePendingReset: the type handed to the reset callback, if it is called. */
  function TakeReset(s: Srv): (Srv, Option<u8>) {
    if s.pending == RESET_NONE then (s, None)
        else (s.(pending := RESET_NONE, session := SESSION_DEFAULT), Some(s.pending))
  }

  // ---------------------------------------------------------------------------------------------
  // Properties of single requests
  // ---------------------------------------------------------------------------------------------

  lemma {:induction false} EncodeLength(dids: seq<Did>, known: seq<u16>, data: seq<Bytes>)
    requires (forall id :: id in known ==> Find(dids, id).Some?) && Answers(dids, known, data)
    ensures |Encode(known, data)| == Space(dids, known)
    decreases |known|
  {
    if known != [] {
      var n := |known| - 1;
      EncodeLength(dids, known[..n], data[..n]);
    }
  }

  lemma ReadDtcFits(s: Srv, w: World, req: Bytes, respMax: u16)
    requires |w.counted| <= |w.table| <= MAX_ENTRIES && |w.copied| <= |w.table|
    ensures var v := ReadDtc(s, w, req, respMax); v.Grant? ==> |v.bytes| <= respMax
  {
    hide MatchCount, MatchRecords;
    assert 4 * Room(respMax) <= respMax - (if respMax < 3 then respMax else 3);
  }

  /** No response is longer than the buffer, for every request, state and buffer size. */
  lemma ReplyFits(s: Srv, w: World, now: u32, req: Bytes, functional: bool, respMax: u16)
    requires |req| >= 1 ==> Fits(w, req)
    ensures |Process(s, w, now, req, functional, respMax).1| <= respMax
  {
    hide Decide, Fits;
    if req != [] { VerdictFits(s.(lastRequest := now), w, req, respMax); }
  }

  lemma VerdictFits(s: Srv, w: World, req: Bytes, respMax: u16)
    requires |req| >= 1 && Fits(w, req)
    ensures var v := Decide(s, w, req, respMax); v.Grant? ==> |v.bytes| <= respMax
  {
    hide ReadDtc, ReadDid, Known, Ids, Answers;
    ReadDtcFits(s, w, req, respMax);
    ReadDidFits(s, w, req, respMax);
  }

  lemma ReadDidFits(s: Srv, w: World, req: Bytes, respMax: u16)
    requires |req| >= 1 && Answers(w.dids, Known(w.dids, Ids(req[1..])), w.data)
    ensures var v := ReadDid(s, w, req, respMax); v.Grant? ==> |v.bytes| <= respMax
  {
    hide Known, Encode, Space, Ids;
    EncodeLength(w.dids, Known(w.dids, Ids(req[1..])), w.data);
  }

  /** The suppress bit of services 0x10, 0x11 and 0x3E decides only whether a positive response is sent. */
  lemma SuppressOnlySilences(s: Srv, w: World, now: u32, req: Bytes, functional: bool, respMax: u16)
    requires |req| == 2 && req[0] in {SID_SESSION_CONTROL, SID_ECU_RESET, SID_TESTER_PRESENT} && req[1] < 0x80
    requires Fits(w, req) && Fits(w, [req[0], req[1] + 0x80])
    ensures var loud := Process(s, w, now, req, functional, respMax);
      var quiet := Process(s, w, now, [req[0], req[1] + 0x80], functional, respMax);
      && quiet.0 == loud.0
      && quiet.1 == if Decide(s.(lastRequest := now), w, req, respMax).Grant? then [] else loud.1
  {
    hide Fits, Known, Ids, Answers;
    assert (req[1] + 0x80) % 0x80 == req[1];
  }

  /** Of all requests exactly 14 FF FF FF is granted a clear, and no other request of service 0x14 is granted. */
  lemma ClearsExactly(s: Srv, w: World, req: Bytes, respMax: u16)
    requires |req| >= 1 && Fits(w, req)
    ensures var v := Decide(s, w, req, respMax);
      && (v.Grant? && v.clear <==> req == [0x14, 0xFF, 0xFF, 0xFF])
      && (v.Grant? && req[0] == 0x14 ==> v.clear)
  {
    hide Fits, ReadDtc, ReadDid;
    ReadsClearNothing(s, w, req, respMax);
    if |req| == 4 { assert req == [req[0], req[1], req[2], req[3]]; }
  }

  lemma ReadsClearNothing(s: Srv, w: World, req: Bytes, respMax: u16)
    requires |req| >= 1 && Fits(w, req)
    ensures var v := ReadDtc(s, w, req, respMax); v.Grant? ==> !v.clear
    ensures var v := ReadDid(s, w, req, respMax); v.Grant? ==> !v.clear
  {
    hide Known, Ids, Answers, MatchCount, MatchRecords, Room, Encode, Space;
  }
}
