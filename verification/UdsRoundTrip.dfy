/**
 * The client of tester/src/uds_client.cpp against the server of common/uds/uds_server.c: for every request the
 * client builds, it reads back exactly what the server meant.
 */
module UdsRoundTrip {
  import opened Words
  import opened Dtc
  import opened DtcManager
  import opened UdsModel
  import opened UdsClient

  /** The one message the transport delivers for a physically addressed request, if the server answers. */
  ghost function Answer(s: Srv, w: World, now: u32, req: Bytes, respMax: u16): Outcome<Bytes>
    requires |req| >= 1 && Fits(w, req)
  {
    var reply := Process(s, w, now, req, false, respMax).1;
    Final(req[0], if reply == [] then None else Some(reply))
  }

  /** What the client sees of a verdict. */
  lemma AnswerIs(s: Srv, w: World, now: u32, req: Bytes, respMax: u16)
    requires |req| >= 1 && Fits(w, req) && respMax >= 3
    ensures var v := Decide(s.(lastRequest := now), w, req, respMax);
      && (v.Refuse? ==> Answer(s, w, now, req, respMax) == Failure(Negative(v.nrc)))
      && (v.Grant? && !v.suppress && IsPositive(req[0], v.bytes) && !IsNegative(req[0], v.bytes)
          ==> Answer(s, w, now, req, respMax) == Success(v.bytes))
  {
    hide Decide, Fits;
  }

  // ---------------------------------------------------------------------------------------------
  // Data identifiers
  // ---------------------------------------------------------------------------------------------

  function SpecIds(specs: seq<DidSpec>): (r: seq<u16>)
    ensures |r| == |specs|
  {
    if specs == [] then [] else SpecIds(specs[..|specs| - 1]) + [specs[|specs| - 1].id]
  }

  ghost function Values(ids: seq<u16>, data: seq<Bytes>): seq<DidValue>
    requires |ids| == |data|
  {
    seq(|ids|, i requires 0 <= i < |ids| => DidValue(ids[i], data[i]))
  }

  lemma IdsStep(b: Bytes)
    ensures Ids(b) == if |b| < 2 then [] else [b[0] as int * 0x100 + b[1]] + Ids(b[2..])
  {}

  lemma {:induction false} IdsAppend(b: Bytes, id: u16)
    requires |b| % 2 == 0
    ensures Ids(b + [Hi(id), Lo(id)]) == Ids(b) + [id]
    decreases |b|
  {
    hide Hi, Lo, Ids;
    HiLo(id);
    var c := b + [Hi(id), Lo(id)];
    IdsStep(b);
    IdsStep(c);
    if b == [] {
      assert c[2..] == [];
      IdsStep(c[2..]);
    } else {
      IdsAppend(b[2..], id);
      assert c[2..] == b[2..] + [Hi(id), Lo(id)];
    }
  }

  /** The server reads the identifiers the client asked for. */
  lemma {:induction false} RequestIds(specs: seq<DidSpec>)
    ensures Ids(DidRequest(specs)[1..]) == SpecIds(specs)
    ensures DidRequest(specs)[0] == 0x22
    decreases |specs|
  {
    if specs != [] {
      var g, d := specs[..|specs| - 1], specs[|specs| - 1];
      RequestIds(g);
      IdsAppend(DidRequest(g)[1..], d.id);
      assert DidRequest(specs)[1..] == DidRequest(g)[1..] + [Hi(d.id), Lo(d.id)];
    }
  }

  /** The encoding, seen from its front. */
  lemma {:induction false} EncodeCons(ids: seq<u16>, data: seq<Bytes>)
    requires |ids| == |data| > 0
    ensures Encode(ids, data) == [Hi(ids[0]), Lo(ids[0])] + data[0] + Encode(ids[1..], data[1..])
    decreases |ids|
  {
    var n := |ids| - 1;
    if n > 0 {
      EncodeCons(ids[..n], data[..n]);
      assert ids[..n][1..] == ids[1..][..n - 1] && data[..n][1..] == data[1..][..n - 1];
      assert ids[1..][n - 1] == ids[n] && data[1..][n - 1] == data[n];
    } else {
      assert Encode(ids[..0], data[..0]) == [];
    }
  }

  lemma ParseOne(id: u16, value: Bytes, rest: Bytes, specs: seq<DidSpec>)
    requires FindSpec(specs, id) == Some(|value|)
    ensures Parse([Hi(id), Lo(id)] + value + rest, specs) == Join([DidValue(id, value)], Parse(rest, specs))
  {
    hide Parse, FindSpec, Join;
    var b := [Hi(id), Lo(id)] + value + rest;
    assert b[0] == Hi(id) && b[1] == Lo(id);
    assert b[2..2 + |value|] == value && b[2 + |value|..] == rest;
    ParseStep(b, specs);
  }

  /** Parsing inverts encoding, duplicates included. */
  lemma {:induction false} ParseEncode(ids: seq<u16>, data: seq<Bytes>, specs: seq<DidSpec>)
    requires |ids| == |data| && forall i :: 0 <= i < |ids| ==> FindSpec(specs, ids[i]) == Some(|data[i]|)
    ensures Parse(Encode(ids, data), specs) == Some(Values(ids, data))
    decreases |ids|
  {
    hide FindSpec, Hi, Lo;
    if ids == [] {
      assert Values(ids, data) == [];
    } else {
      EncodeCons(ids, data);
      ParseOne(ids[0], data[0], Encode(ids[1..], data[1..]), specs);
      ParseEncode(ids[1..], data[1..], specs);
      assert [DidValue(ids[0], data[0])] + Values(ids[1..], data[1..]) == Values(ids, data);
    }
  }

  /** The caller's lengths are those of the server's table, for every identifier the server knows. */
  ghost predicate Agree(specs: seq<DidSpec>, dids: seq<Did>) {
    forall i :: 0 <= i < |specs| && Find(dids, specs[i].id).Some? ==> specs[i].length == Find(dids, specs[i].id).value
  }

  lemma {:induction false} SpecLength(specs: seq<DidSpec>, dids: seq<Did>, i: nat)
    requires Agree(specs, dids) && i < |specs| && Find(dids, specs[i].id).Some?
    ensures FindSpec(specs, specs[i].id) == Some(Find(dids, specs[i].id).value as nat)
    decreases |specs|
  {
    hide Find;
    if specs[0].id == specs[i].id {
      assert FindSpec(specs, specs[i].id) == Some(specs[0].length);
    } else {
      assert forall j :: 0 <= j < |specs| - 1 ==> specs[1..][j] == specs[j + 1];
      SpecLength(specs[1..], dids, i - 1);
    }
  }

  ghost predicate Asked(specs: seq<DidSpec>, id: u16) { exists i :: 0 <= i < |specs| && specs[i].id == id }

  lemma {:induction false} KnownIsAsked(dids: seq<Did>, specs: seq<DidSpec>, id: u16)
    requires id in Known(dids, SpecIds(specs))
    ensures Asked(specs, id)
    decreases |specs|
  {
    hide Find;
    var g, d := specs[..|specs| - 1], specs[|specs| - 1];
    assert SpecIds(specs)[..|specs| - 1] == SpecIds(g);
    if id == d.id { assert specs[|specs| - 1].id == id; }
    else {
      KnownIsAsked(dids, g, id);
      var i :| 0 <= i < |g| && g[i].id == id;
      assert specs[i].id == id;
    }
  }

  lemma KnownSpecs(dids: seq<Did>, specs: seq<DidSpec>, data: seq<Bytes>)
    requires Agree(specs, dids) && Answers(dids, Known(dids, SpecIds(specs)), data)
    ensures var known := Known(dids, SpecIds(specs));
      forall k :: 0 <= k < |known| ==> FindSpec(specs, known[k]) == Some(|data[k]|)
  {
    hide FindSpec, Find, SpecIds;
    var known := Known(dids, SpecIds(specs));
    forall k | 0 <= k < |known| ensures FindSpec(specs, known[k]) == Some(|data[k]|) {
      KnownIsAsked(dids, specs, known[k]);
      var i :| 0 <= i < |specs| && specs[i].id == known[k];
      SpecLength(specs, dids, i);
    }
  }

  /**
   * readDids against ReadDid: for any list of identifiers whose lengths agree with the server's table, the result
   * is exactly the known identifiers in request order, duplicates included, each with what its read function
   * returned; otherwise the reason the server gives.
   */
  lemma ReadDidsRoundTrip(s: Srv, w: World, now: u32, specs: seq<DidSpec>, respMax: u16)
    requires Agree(specs, w.dids) && Fits(w, DidRequest(specs)) && respMax >= 3
    ensures var known := Known(w.dids, SpecIds(specs));
      && |w.data| == |known|
      && DidResult(Answer(s, w, now, DidRequest(specs), respMax), specs)
         == if specs == [] then Failure(Negative(0x13))
            else if known == [] then Failure(Negative(0x31))
            else if 1 + Space(w.dids, known) > respMax then Failure(Negative(0x14))
            else Success(Values(known, w.data))
  {
    hide Known, Ids, Encode, Parse, Space, FindSpec, Values, DidRequest, SpecIds, Decide, Answer, Find, Answers, Agree;
    var req := DidRequest(specs);
    RequestIds(specs);
    var known := Known(w.dids, SpecIds(specs));
    DidVerdictIs(s.(lastRequest := now), w, req, respMax);
    KnownSpecs(w.dids, specs, w.data);
    ParseEncode(known, w.data, specs);
    AnswerIs(s, w, now, req, respMax);
    var head := [0x62];
    assert (head + Encode(known, w.data))[1..] == Encode(known, w.data);
  }

  lemma DidVerdictIs(s: Srv, w: World, req: Bytes, respMax: u16)
    requires |req| >= 1 && req[0] == 0x22 && |req| % 2 == 1 && Fits(w, req)
    ensures var known := Known(w.dids, Ids(req[1..]));
      && |w.data| == |known|
      && Decide(s, w, req, respMax)
         == if |req| == 1 then Refuse(0x13)
            else if known == [] then Refuse(0x31)
            else if 1 + Space(w.dids, known) > respMax then Refuse(0x14)
            else Grant(s, false, [0x62] + Encode(known, w.data), false)
  {
    hide Known, Ids, Encode, Space;
  }

  // ---------------------------------------------------------------------------------------------
  // Trouble codes
  // ---------------------------------------------------------------------------------------------

  /** The matching trouble codes as the client shows them: 24-bit codes, and the status bits the server supports. */
  function Matching(table: seq<Config>, es: seq<Entry>, mask: bv8): (r: seq<DtcRecord>)
    requires |es| <= |table|
    ensures |r| == MatchCount(es, mask)
  {
    if es == [] then []
    else
      var n := |es| - 1;
      MatchesAnyBit(es[n], mask);
      Matching(table, es[..n], mask)
      + (if SharesBit(es[n].status, mask)
         then [DtcRecord(table[n].code % 0x100_0000, es[n].status as u8 % 0x80)]
         else [])
  }

  lemma CodeBytes(code: u32)
    ensures code / 0x10000 % 0x100 * 0x10000 + code / 0x100 % 0x100 * 0x100 + code % 0x100 == code % 0x100_0000
  {
    assert code / 0x10000 == code / 0x100 / 0x100;
  }

  lemma LowBits(status: bv8)
    ensures (status & AVAILABILITY) as u8 == status as u8 % 0x80
  {}

  lemma OneRecord(code: u32, status: bv8)
    ensures Records(Record(code, status)) == [DtcRecord(code % 0x100_0000, status as u8 % 0x80)]
  {
    LowBits(status);
    CodeBytes(code);
    var r := Record(code, status);
    assert Records(r[..0]) == [];
  }

  lemma {:induction false} RecordsAppend(a: Bytes, b: Bytes)
    requires |a| % 4 == 0 && |b| == 4
    ensures Records(a + b) == Records(a) + Records(b)
  {
    assert (a + b)[..|a|] == a;
    assert Records(b[..0]) == [];
    assert forall k :: 0 <= k < 4 ==> (a + b)[|a| + k] == b[k];
  }

  lemma {:induction false} RecordsOfMatches(table: seq<Config>, es: seq<Entry>, mask: bv8)
    requires |es| <= |table|
    ensures Records(MatchRecords(table, es, mask)) == Matching(table, es, mask)
    decreases |es|
  {
    hide Records, Record, Matches, SharesBit;
    if es == [] {
      NoRecords();
    } else {
      var n := |es| - 1;
      RecordsOfMatches(table, es[..n], mask);
      MatchesAnyBit(es[n], mask);
      if Matches(es[n], mask) {
        RecordsAppend(MatchRecords(table, es[..n], mask), Record(table[n].code, es[n].status));
        OneRecord(table[n].code, es[n].status);
      } else {
        assert MatchRecords(table, es, mask) == MatchRecords(table, es[..n], mask);
      }
    }
  }

  lemma NoRecords()
    ensures Records([]) == []
  {}

  lemma {:induction false} RecordsPrefix(b: Bytes, n: nat)
    requires |b| % 4 == 0 && 4 * n <= |b|
    ensures Records(b[..4 * n]) == Records(b)[..n]
    decreases |b|
  {
    if 4 * n == |b| { assert b[..4 * n] == b; }
    else {
      var k := |b| - 4;
      RecordsPrefix(b[..k], n);
      assert b[..k][..4 * n] == b[..4 * n];
    }
  }

  /**
   * readDtcs against ReadDtc. Even if other tasks report between counting and copying, the client gets a
   * consistent snapshot: the first codes, in table order, that match at the moment of copying, as many as fit.
   */
  lemma ReadDtcsRoundTrip(s: Srv, w: World, now: u32, mask: u8, respMax: u16)
    requires Fits(w, [0x19, 2, mask]) && respMax >= 3
    ensures var all := Matching(w.table, w.copied, mask as bv8);
      DtcResult(Answer(s, w, now, [0x19, 2, mask], respMax))
      == if MatchCount(w.counted, mask as bv8) > Room(respMax) then Failure(Negative(0x14))
         else Success(if |all| <= Room(respMax) then all else all[..Room(respMax)])
  {
    hide Matching, MatchRecords, MatchCount, Records, Known, Ids, Answers, Room, Decide, Answer;
    var m := mask as bv8;
    var records := MatchRecords(w.table, w.copied, m);
    RecordsOfMatches(w.table, w.copied, m);
    if |records| > 4 * Room(respMax) { RecordsPrefix(records, Room(respMax)); }
    var kept := if |records| <= 4 * Room(respMax) then records else records[..4 * Room(respMax)];
    assert (DtcHeader(2) + kept)[3..] == kept;
    AnswerIs(s, w, now, [0x19, 2, mask], respMax);
    DtcVerdictIs(s.(lastRequest := now), w, mask, respMax);
  }

  lemma DtcVerdictIs(s: Srv, w: World, mask: u8, respMax: u16)
    requires Fits(w, [0x19, 2, mask]) && respMax >= 3
    ensures var records := MatchRecords(w.table, w.copied, mask as bv8);
      Decide(s, w, [0x19, 2, mask], respMax)
      == if MatchCount(w.counted, mask as bv8) > Room(respMax) then Refuse(0x14)
         else
           var n := 4 * Room(respMax);
           Grant(s, false, DtcHeader(2) + (if |records| <= n then records else records[..n]), false)
  {
    hide MatchRecords, MatchCount, Known, Ids, Answers, Room;
    assert Fit(DtcHeader(2), respMax) == DtcHeader(2);
  }

  /** Without interference the client gets all matching codes or is told that they do not fit. */
  lemma QuietReadDtcs(s: Srv, w: World, now: u32, mask: u8, respMax: u16)
    requires Fits(w, [0x19, 2, mask]) && respMax >= 3 && w.counted == w.copied
    ensures DtcResult(Answer(s, w, now, [0x19, 2, mask], respMax))
      == if MatchCount(w.copied, mask as bv8) > Room(respMax) then Failure(Negative(0x14))
         else Success(Matching(w.table, w.copied, mask as bv8))
  {
    hide Matching, MatchCount, Answer, DtcResult, Fits, Room;
    ReadDtcsRoundTrip(s, w, now, mask, respMax);
  }

  /** readDtcCount against ReadDtc. */
  lemma CountRoundTrip(s: Srv, w: World, now: u32, mask: u8, respMax: u16)
    requires Fits(w, [0x19, 1, mask]) && respMax >= 6
    ensures CountResult(Answer(s, w, now, [0x19, 1, mask], respMax))
        == Success(MatchCount(w.counted, mask as bv8))
  {
    hide MatchCount, MatchRecords, Known, Ids, Answers, Decide, Answer, Hi, Lo, DtcHeader;
    AnswerIs(s, w, now, [0x19, 1, mask], respMax);
    CountVerdictIs(s.(lastRequest := now), w, mask, respMax);
  }

  lemma CountVerdictIs(s: Srv, w: World, mask: u8, respMax: u16)
    requires Fits(w, [0x19, 1, mask]) && respMax >= 6
    ensures var n := MatchCount(w.counted, mask as bv8);
      && n <= MAX_ENTRIES
      && Decide(s, w, [0x19, 1, mask], respMax) == Grant(s, false, [0x59, 1, 0x7F, 1, Hi(n), Lo(n)], false)
      && Hi(n) as int * 0x100 + Lo(n) == n
  {
    hide MatchCount, Known, Ids, Answers, ReadDtc, Hi, Lo;
    HiLo(MatchCount(w.counted, mask as bv8));
    CountReply(s, w, mask, respMax);
  }

  lemma CountReply(s: Srv, w: World, mask: u8, respMax: u16)
    requires |w.counted| <= |w.table| <= MAX_ENTRIES && |w.copied| <= |w.table| && respMax >= 6
    ensures var n := MatchCount(w.counted, mask as bv8);
      ReadDtc(s, w, [0x19, 1, mask], respMax) == Grant(s, false, [0x59, 1, 0x7F, 1, Hi(n), Lo(n)], false)
  {
    hide MatchCount, MatchRecords, Hi, Lo, Room;
    var n := MatchCount(w.counted, mask as bv8);
    var b := DtcHeader(1) + [1, Hi(n), Lo(n)];
    assert Fit(b, respMax) == b;
  }

  lemma HiLo(n: u16)
    ensures Hi(n) as int * 0x100 + Lo(n) == n
  {}

  // ---------------------------------------------------------------------------------------------
  // The other services
  // ---------------------------------------------------------------------------------------------

  /** startSession: the session is entered, and the client learns P2 = 50 ms and P2* = 5000 ms. */
  lemma SessionRoundTrip(s: Srv, w: World, now: u32, session: u8, respMax: u16)
    requires Fits(w, [0x10, session]) && session in {1, 3} && respMax >= 6
    ensures SessionResult(Answer(s, w, now, [0x10, session], respMax), session)
        == Success(SessionTiming(50, 5000))
    ensures Process(s, w, now, [0x10, session], false, respMax).0 == Srv(session, s.pending, now)
  {
    hide Fits;
    AnswerIs(s, w, now, [0x10, session], respMax);
  }

  /** ecuReset: accepted and pending in the extended session; otherwise NRC 0x7E and nothing changes. */
  lemma ResetRoundTrip(s: Srv, w: World, now: u32, kind: u8, respMax: u16)
    requires Fits(w, [0x11, kind]) && kind in {1, 3} && respMax >= 3
    ensures var r := EchoResult(Answer(s, w, now, [0x11, kind], respMax), kind, false);
      var t := Process(s, w, now, [0x11, kind], false, respMax).0;
      if s.session == 3 then r == Success(()) && t == Srv(s.session, kind, now)
      else r == Failure(Negative(0x7E)) && t == Srv(s.session, s.pending, now)
  {
    hide Fits;
    AnswerIs(s, w, now, [0x11, kind], respMax);
  }

  /** testerPresent and clearAllDtcs succeed; the latter clears, the former does not. */
  lemma PresentAndClear(s: Srv, w: World, now: u32, respMax: u16)
    requires Fits(w, [0x3E, 0]) && Fits(w, [0x14, 0xFF, 0xFF, 0xFF]) && respMax >= 3
    ensures EchoResult(Answer(s, w, now, [0x3E, 0], respMax), 0, true) == Success(())
    ensures Decide(s, w, [0x3E, 0], respMax).Grant?
        && !Decide(s, w, [0x3E, 0], respMax).clear
    ensures ClearResult(Answer(s, w, now, [0x14, 0xFF, 0xFF, 0xFF], respMax)) == Success(())
    ensures Decide(s, w, [0x14, 0xFF, 0xFF, 0xFF], respMax) == Grant(s, true, [0x54], false)
  {
    hide Fits;
    assert [0x14, 0xFF, 0xFF, 0xFF][1..] == [0xFF, 0xFF, 0xFF];
    AnswerIs(s, w, now, [0x3E, 0], respMax);
    AnswerIs(s, w, now, [0x14, 0xFF, 0xFF, 0xFF], respMax);
  }

  lemma KnownOne(dids: seq<Did>, id: u16)
    ensures Ids([Hi(id), Lo(id)]) == [id]
    ensures Known(dids, [id]) == if Find(dids, id).Some? then [id] else []
  {
    IdsAppend([], id);
    assert [] + [Hi(id), Lo(id)] == [Hi(id), Lo(id)];
    assert [id][..0] == [];
  }

  /** readDid against ReadDid: what the read function returned, or why not. */
  lemma ReadDidRoundTrip(s: Srv, w: World, now: u32, id: u16, respMax: u16)
    requires Fits(w, [0x22, Hi(id), Lo(id)]) && respMax >= 3
    ensures Find(w.dids, id).Some? ==> |w.data| == 1
    ensures OneDidResult(Answer(s, w, now, [0x22, Hi(id), Lo(id)], respMax), id)
         == if Find(w.dids, id).None? then Failure(Negative(0x31))
            else if 3 + Find(w.dids, id).value > respMax then Failure(Negative(0x14))
            else Success(w.data[0])
  {
    hide Fits, Decide, Answer, Ids, Known, Find, Hi, Lo;
    var req := [0x22, Hi(id), Lo(id)];
    assert req[1..] == [Hi(id), Lo(id)];
    KnownOne(w.dids, id);
    HiLo(id);
    DidVerdictIs(s.(lastRequest := now), w, req, respMax);
    AnswerIs(s, w, now, req, respMax);
    if Find(w.dids, id).Some? {
      EncodeOne(w.dids, id, w.data[0]);
      assert w.data == [w.data[0]];
      var b := [0x62] + ([Hi(id), Lo(id)] + w.data[0]);
      assert b[1] == Hi(id) && b[2] == Lo(id) && b[3..] == w.data[0];
    }
  }

  lemma EncodeOne(dids: seq<Did>, id: u16, value: Bytes)
    requires Find(dids, id).Some?
    ensures Encode([id], [value]) == [Hi(id), Lo(id)] + value && Space(dids, [id]) == 2 + Find(dids, id).value
  {
    assert [id][..0] == [] && [value][..0] == [];
    assert Encode([], []) == [];
    assert [] + [Hi(id), Lo(id)] + value == [Hi(id), Lo(id)] + value;
  }
}
