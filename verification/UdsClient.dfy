/**
 * tester/src/uds_client.cpp and tester/src/dtc.cpp: the parser side of the diagnostic server.
 */
module UdsClient {
  import opened Words
  import opened UdsModel

  const NRC_PENDING: u8 := 0x78

  datatype Error = Timeout | Negative(nrc: u8) | Malformed | SendFailed

  datatype Outcome<+T> = Success(value: T) | Failure(error: Error)

  datatype DidSpec = DidSpec(id: u16, length: nat)

  datatype DidValue = DidValue(id: u16, data: Bytes)

  datatype DtcRecord = DtcRecord(code: u32, status: u8)

  /** The transport decides whether a request is sent and what, if anything, is received. */
  class Transport {
    constructor () {}

    method Send(req: Bytes) returns (ok: bool) { ok := *; }

    /** At most `timeout` ms are waited. */
    method Receive(timeout: nat) returns (response: Option<Bytes>) { response := *; }
  }

  predicate IsNegative(sid: u8, r: Bytes) { |r| == 3 && r[0] == SID_NEGATIVE && r[1] == sid }

  predicate IsPending(sid: u8, x: Option<Bytes>) { x.Some? && IsNegative(sid, x.value) && x.value[2] == NRC_PENDING }

  predicate IsPositive(sid: u8, r: Bytes) { r != [] && r[0] == (sid + POSITIVE_OFFSET) % TWO8 }

  /** What a request yields when `x` is the first thing received that is not response pending. */
  function Final(sid: u8, x: Option<Bytes>): Outcome<Bytes> {
    match x
    case None => Failure(Timeout)
    case Some(r) =>
      if IsNegative(sid, r) then Failure(Negative(r[2]))
      else if IsPositive(sid, r) then Success(r)
      else Failure(Malformed)
  }

  /** A response is negative, positive or neither, by its first bytes alone. */
  lemma FinalBytes(sid: u8, r: Bytes)
    ensures IsPending(sid, Some(r)) <==> r == [0x7F, sid, 0x78]
    ensures |r| == 3 && r[0] == 0x7F && r[1] == sid ==> Final(sid, Some(r)) == Failure(Negative(r[2]))
    ensures !(|r| == 3 && r[0] == 0x7F && r[1] == sid) ==>
      Final(sid, Some(r)) == if r != [] && r[0] == (sid + 0x40) % 256 then Success(r) else Failure(Malformed)
  {
    if |r| == 3 { assert r == [r[0], r[1], r[2]]; }
  }

  function FindSpec(specs: seq<DidSpec>, id: u16): Option<nat> {
    if specs == [] then None else if specs[0].id == id then Some(specs[0].length) else FindSpec(specs[1..], id)
  }

  /** The values in a response, behind its first byte. */
  function Parse(b: Bytes, specs: seq<DidSpec>): Option<seq<DidValue>> {
    if b == [] then Some([])
    else if |b| < 2 then None
    else
      var id := b[0] as int * 0x100 + b[1];
      var length := FindSpec(specs, id);
      if length.None? || 2 + length.value > |b| then None
      else
        var rest := Parse(b[2 + length.value..], specs);
        if rest.None? then None else Some([DidValue(id, b[2..2 + length.value])] + rest.value)
  }

  function DidRequest(specs: seq<DidSpec>): (r: Bytes)
    ensures |r| == 1 + 2 * |specs|
  {
    if specs == [] then [SID_READ_DID]
    else
      var d := specs[|specs| - 1];
      DidRequest(specs[..|specs| - 1]) + [Hi(d.id), Lo(d.id)]
  }

  /** readDids, applied to what the request yields. */
  function DidResult(r: Outcome<Bytes>, specs: seq<DidSpec>): Outcome<seq<DidValue>> {
    match r
    case Failure(e) => Failure(e)
    case Success(b) =>
      if b == [] then Failure(Malformed)
      else match Parse(b[1..], specs)
        case None => Failure(Malformed)
        case Some(values) => Success(values)
  }

  /** parseDtcRecords */
  function Records(b: Bytes): (r: seq<DtcRecord>)
    requires |b| % 4 == 0
    ensures |r| == |b| / 4
    decreases |b|
  {
    if b == [] then []
    else
      var n := |b| - 4;
      Records(b[..n]) + [DtcRecord(b[n] as int * 0x10000 + b[n + 1] as int * 0x100 + b[n + 2], b[n + 3])]
  }

  function DtcResult(r: Outcome<Bytes>): Outcome<seq<DtcRecord>> {
    match r
    case Failure(e) => Failure(e)
    case Success(b) =>
      if |b| < 3 || b[1] != 2 || (|b| - 3) % 4 != 0 then Failure(Malformed) else Success(Records(b[3..]))
  }

  function CountResult(r: Outcome<Bytes>): Outcome<u16> {
    match r
    case Failure(e) => Failure(e)
    case Success(b) =>
      if |b| != 6 || b[1] != 1 then Failure(Malformed) else Success(b[4] as int * 0x100 + b[5])
  }

  /** The timing startSession reports, in ms. */
  datatype SessionTiming = SessionTiming(p2: int, p2Star: int)

  function SessionResult(r: Outcome<Bytes>, session: u8): Outcome<SessionTiming> {
    match r
    case Failure(e) => Failure(e)
    case Success(b) =>
      if |b| != 6 || b[1] != session then Failure(Malformed)
      else Success(SessionTiming(b[2] as int * 0x100 + b[3], (b[4] as int * 0x100 + b[5]) * 10))
  }

  /** ecuReset and testerPresent, which only check that the sub-function comes back. */
  function EchoResult(r: Outcome<Bytes>, sub: u8, exact: bool): Outcome<()> {
    match r
    case Failure(e) => Failure(e)
    case Success(b) => if |b| < 2 || (exact && |b| != 2) || b[1] != sub then Failure(Malformed) else Success(())
  }

  function ClearResult(r: Outcome<Bytes>): Outcome<()> {
    match r
    case Failure(e) => Failure(e)
    case Success(b) => if |b| != 1 then Failure(Malformed) else Success(())
  }

  /** readDid: everything behind the echoed identifier. */
  function OneDidResult(r: Outcome<Bytes>, id: u16): Outcome<Bytes> {
    match r
    case Failure(e) => Failure(e)
    case Success(b) => if |b| < 3 || b[1] as int * 0x100 + b[2] != id then Failure(Malformed) else Success(b[3..])
  }

  /** Values already parsed, followed by what the rest yields. */
  ghost function Join(values: seq<DidValue>, rest: Option<seq<DidValue>>): Option<seq<DidValue>> {
    if rest.None? then None else Some(values + rest.value)
  }

  lemma Joined(x: Option<seq<DidValue>>)
    ensures Join([], x) == x
  {
    if x.Some? { assert [] + x.value == x.value; }
  }

  lemma JoinMore(values: seq<DidValue>, v: DidValue, rest: Option<seq<DidValue>>)
    ensures Join(values, Join([v], rest)) == Join(values + [v], rest)
  {
    if rest.Some? { assert values + ([v] + rest.value) == values + [v] + rest.value; }
  }

  lemma ParseNothing(b: Bytes, specs: seq<DidSpec>)
    requires b == []
    ensures Parse(b, specs) == Some([])
  {}

  lemma ParseStep(b: Bytes, specs: seq<DidSpec>)
    requires b != []
    ensures |b| < 2 ==> Parse(b, specs).None?
    ensures |b| >= 2 ==>
      var id := b[0] as int * 0x100 + b[1];
      var length := FindSpec(specs, id);
      Parse(b, specs) == if length.None? || 2 + length.value > |b| then None
                         else Join([DidValue(id, b[2..2 + length.value])], Parse(b[2 + length.value..], specs))
  {
    hide FindSpec;
  }

  class Client {
    const transport: Transport
    const maxPending: int
    /** How long to wait for a first response, and for the next one after response pending; in ms. */
    const p2: nat
    const p2Star: nat

    constructor (transport: Transport, maxPending: int, p2: nat, p2Star: nat)
      ensures this.transport == transport && this.maxPending == maxPending && this.p2 == p2 && this.p2Star == p2Star
    {
      this.transport, this.maxPending, this.p2, this.p2Star := transport, maxPending, p2, p2Star;
    }

    /**
     * UdsClient::request. `got` is everything received: response-pending messages, at most `maxPending` of them,
     * and then the message that decides. `waits` are the timeouts: P2 for the first message, P2* after each pending.
     */
    method Request(req: Bytes) returns (r: Outcome<Bytes>, ghost got: seq<Option<Bytes>>, ghost waits: seq<nat>)
      ensures |waits| == |got| && forall i :: 0 <= i < |waits| ==> waits[i] == if i == 0 then p2 else p2Star
      ensures req == [] ==> r == Failure(Malformed)
      ensures |got| <= (if maxPending < 0 then 0 else maxPending + 1)
      ensures req != [] && got == [] ==> r == Failure(SendFailed) || (maxPending < 0 && r == Failure(Timeout))
      ensures req != [] && got != [] ==>
        && (forall i :: 0 <= i < |got| - 1 ==> got[i] == Some([0x7F, req[0], 0x78]))
        && r == if got[|got| - 1] == Some([0x7F, req[0], 0x78]) then Failure(Timeout)
                else Final(req[0], got[|got| - 1])
      ensures req != [] && got != [] && got[|got| - 1] == Some([0x7F, req[0], 0x78]) ==> |got| == maxPending + 1
    {
      got, waits := [], [];
      if |req| == 0 { return Failure(Malformed), got, waits; }
      var sent := transport.Send(req);
      if !sent { return Failure(SendFailed), got, waits; }
      var sid := req[0];
      var timeout := p2;
      var pending := 0;
      while pending <= maxPending
        invariant 0 <= pending == |got| == |waits| && (pending > 0 ==> pending <= maxPending + 1)
        invariant forall i :: 0 <= i < |got| ==> got[i] == Some([0x7F, sid, 0x78])
        invariant timeout == if pending == 0 then p2 else p2Star
        invariant forall i :: 0 <= i < |waits| ==> waits[i] == if i == 0 then p2 else p2Star
      {
        var response := transport.Receive(timeout);
        got, waits := got + [response], waits + [timeout];
        if response.None? { return Failure(Timeout), got, waits; }
        var m := response.value;
        FinalBytes(sid, m);
        if |m| == 3 && m[0] == SID_NEGATIVE && m[1] == sid {
          if m[2] != NRC_PENDING { return Failure(Negative(m[2])), got, waits; }
          timeout := p2Star;
          pending := pending + 1;
        } else if |m| > 0 && m[0] == (sid + POSITIVE_OFFSET) % TWO8 {
          return Success(m), got, waits;
        } else {
          return Failure(Malformed), got, waits;
        }
      }
      return Failure(Timeout), got, waits;
    }

    /** UdsClient::readDids, from the response on. */
    method ParseDids(r: Outcome<Bytes>, specs: seq<DidSpec>) returns (result: Outcome<seq<DidValue>>)
      requires r.Success? ==> r.value != []
      ensures result == DidResult(r, specs)
    {
      hide Parse, FindSpec;
      if r.Failure? { return Failure(r.error); }
      var b := r.value;
      var values: seq<DidValue> := [];
      var pos := 1;
      Joined(Parse(b[1..], specs));
      while pos < |b|
        invariant 1 <= pos <= |b|
        invariant Parse(b[1..], specs) == Join(values, Parse(b[pos..], specs))
      {
        ParseStep(b[pos..], specs);
        if pos + 2 > |b| { return Failure(Malformed); }
        var id := b[pos] as int * 0x100 + b[pos + 1];
        var spec := FindId(specs, id);
        pos := pos + 2;
        if spec.None? || pos + spec.value > |b| { return Failure(Malformed); }
        JoinMore(values, DidValue(id, b[pos..pos + spec.value]), Parse(b[pos + spec.value..], specs));
        ghost var rest := b[pos - 2..];
        assert rest[2 + spec.value..] == b[pos + spec.value..] && rest[2..2 + spec.value] == b[pos..pos + spec.value];
        values := values + [DidValue(id, b[pos..pos + spec.value])];
        pos := pos + spec.value;
      }
      ParseNothing(b[pos..], specs);
      assert values + [] == values;
      return Success(values);
    }

    method FindId(specs: seq<DidSpec>, id: u16) returns (length: Option<nat>)
      ensures length == FindSpec(specs, id)
    {
      var i := 0;
      while i < |specs|
        invariant 0 <= i <= |specs| && FindSpec(specs, id) == FindSpec(specs[i..], id)
      {
        if specs[i].id == id { return Some(specs[i].length); }
        i := i + 1;
      }
      return None;
    }

    /** The request of UdsClient::readDids. */
    method BuildDidRequest(specs: seq<DidSpec>) returns (req: Bytes)
      ensures req == DidRequest(specs)
    {
      req := [SID_READ_DID];
      var i := 0;
      while i < |specs|
        invariant 0 <= i <= |specs| && req == DidRequest(specs[..i])
      {
        req := req + [Hi(specs[i].id)];
        req := req + [Lo(specs[i].id)];
        assert specs[..i + 1][..i] == specs[..i];
        i := i + 1;
      }
      assert specs[..|specs|] == specs;
    }

    /** parseDtcRecords */
    method ParseRecords(b: Bytes) returns (dtcs: Option<seq<DtcRecord>>)
      ensures dtcs == if |b| % 4 != 0 then None else Some(Records(b))
    {
      if |b| % 4 != 0 { return None; }
      var list: seq<DtcRecord> := [];
      var i := 0;
      while i < |b|
        invariant 0 <= i <= |b| && i % 4 == 0 && list == Records(b[..i])
      {
        assert b[..i + 4][..i] == b[..i];
        var code := b[i] as int * 0x10000 + b[i + 1] as int * 0x100 + b[i + 2];
        list := list + [DtcRecord(code, b[i + 3])];
        i := i + 4;
      }
      assert b[..|b|] == b;
      return Some(list);
    }
  }
}
