/**
 * The server's answers byte by byte: for every service, which requests are refused with which code, what the others
 * do to the server, and the bytes sent back. Everything here is written in the numbers of ISO 14229-1, without the
 * functions and names the server model is built from.
 */
module UdsWire {
  import opened Words
  import opened Dtc
  import opened DtcManager
  import opened UdsModel
  import opened UdsClient
  import opened UdsRoundTrip

  /** A refusal; a functional request stays unanswered for exactly five codes. */
  function Refused(req: Bytes, nrc: u8, functional: bool, respMax: u16): Bytes
    requires req != []
  {
    if respMax < 3 || (functional && nrc in {0x11, 0x12, 0x31, 0x7E, 0x7F}) then [] else [0x7F, req[0], nrc]
  }

  /** A positive response, as far as the buffer reaches. */
  function Sent(b: Bytes, respMax: u16): Bytes { if |b| <= respMax then b else b[..respMax] }

  /** Service 0x10: sessions 1 and 3, P2 50 ms and P2* 5000 ms in steps of 10; bit 7 silences the response. */
  lemma SessionService(s: Srv, w: World, now: u32, req: Bytes, functional: bool, respMax: u16)
    requires req != [] && req[0] == 0x10 && Fits(w, req)
    ensures Process(s, w, now, req, functional, respMax)
      == if |req| != 2 then (s.(lastRequest := now), Refused(req, 0x13, functional, respMax))
         else match req[1]
           case 0x01 => (Srv(1, s.pending, now), Sent([0x50, 0x01, 0x00, 0x32, 0x01, 0xF4], respMax))
           case 0x03 => (Srv(3, s.pending, now), Sent([0x50, 0x03, 0x00, 0x32, 0x01, 0xF4], respMax))
           case 0x81 => (Srv(1, s.pending, now), [])
           case 0x83 => (Srv(3, s.pending, now), [])
           case _ => (s.(lastRequest := now), Refused(req, 0x12, functional, respMax))
  {
    hide Fits;
  }

  /** Service 0x11: hard and soft reset, in session 3 only. */
  lemma ResetService(s: Srv, w: World, now: u32, req: Bytes, functional: bool, respMax: u16)
    requires req != [] && req[0] == 0x11 && Fits(w, req)
    ensures Process(s, w, now, req, functional, respMax)
      == if |req| != 2 then (s.(lastRequest := now), Refused(req, 0x13, functional, respMax))
         else if req[1] !in {0x01, 0x03, 0x81, 0x83}
         then (s.(lastRequest := now), Refused(req, 0x12, functional, respMax))
         else if s.session != 3 then (s.(lastRequest := now), Refused(req, 0x7E, functional, respMax))
         else match req[1]
           case 0x01 => (Srv(3, 1, now), Sent([0x51, 0x01], respMax))
           case 0x03 => (Srv(3, 3, now), Sent([0x51, 0x03], respMax))
           case 0x81 => (Srv(3, 1, now), [])
           case _ => (Srv(3, 3, now), [])
  {
    hide Fits;
  }

  /** Service 0x14: all groups or none. */
  lemma ClearService(s: Srv, w: World, now: u32, req: Bytes, functional: bool, respMax: u16)
    requires req != [] && req[0] == 0x14 && Fits(w, req)
    ensures Process(s, w, now, req, functional, respMax)
      == (s.(lastRequest := now),
          if |req| != 4 then Refused(req, 0x13, functional, respMax)
          else if req == [0x14, 0xFF, 0xFF, 0xFF] then Sent([0x54], respMax)
          else Refused(req, 0x31, functional, respMax))
  {
    hide Fits;
    if |req| == 4 { assert req == [req[0], req[1], req[2], req[3]]; }
  }

  /** Service 0x3E: only the zero sub-function, answered unless bit 7 is set. */
  lemma PresentService(s: Srv, w: World, now: u32, req: Bytes, functional: bool, respMax: u16)
    requires req != [] && req[0] == 0x3E && Fits(w, req)
    ensures Process(s, w, now, req, functional, respMax)
      == (s.(lastRequest := now),
          if |req| != 2 then Refused(req, 0x13, functional, respMax)
          else match req[1]
            case 0x00 => Sent([0x7E, 0x00], respMax)
            case 0x80 => []
            case _ => Refused(req, 0x12, functional, respMax))
  {
    hide Fits;
  }

  /** No other service exists. */
  lemma UnknownService(s: Srv, w: World, now: u32, req: Bytes, functional: bool, respMax: u16)
    requires req != [] && req[0] !in {0x10, 0x11, 0x14, 0x19, 0x22, 0x3E} && Fits(w, req)
    ensures Process(s, w, now, req, functional, respMax)
      == (s.(lastRequest := now), Refused(req, 0x11, functional, respMax))
  {
    hide Fits;
  }

  /** How many four-byte records fit behind three bytes; the count is kept in a byte. */
  function Capacity(respMax: u16): nat {
    if respMax < 3 then 0 else if respMax >= 3 + 4 * 255 then 255 else (respMax - 3) / 4
  }

  lemma CapacityIs(respMax: u16)
    ensures Capacity(respMax) == Room(respMax)
  {}

  /** The record of a trouble code: three bytes of code, high byte first, and its status. */
  function Coded(codes: seq<DtcRecord>): (b: Bytes)
    ensures |b| == 4 * |codes|
  {
    if codes == [] then []
    else
      var x := codes[|codes| - 1];
      Coded(codes[..|codes| - 1]) + [x.code / 0x10000 % 0x100, x.code / 0x100 % 0x100, x.code % 0x100, x.status]
  }

  /** Whole multiples of m do not count modulo m. */
  lemma Multiple(q: nat, y: nat)
    ensures (0x100 * q + y) % 0x100 == y % 0x100
  {}

  lemma SameBytes(code: u32)
    ensures var x := code % 0x100_0000;
      x / 0x10000 % 0x100 == code / 0x10000 % 0x100 && x / 0x100 % 0x100 == code / 0x100 % 0x100
      && x % 0x100 == code % 0x100
  {
    var x, q := code % 0x100_0000, code / 0x100_0000;
    assert code == 0x100_0000 * q + x;
    assert code / 0x10000 == 0x100 * q + x / 0x10000;
    assert code / 0x100 == 0x100 * (0x100 * q) + x / 0x100;
    assert code == 0x100 * (0x10000 * q) + x;
    Multiple(q, x / 0x10000);
    Multiple(0x100 * q, x / 0x100);
    Multiple(0x10000 * q, x);
  }

  lemma {:induction false} CodedMatches(table: seq<Config>, es: seq<Entry>, mask: bv8)
    requires |es| <= |table|
    ensures MatchRecords(table, es, mask) == Coded(Matching(table, es, mask))
    decreases |es|
  {
    hide Matches, SharesBit;
    if es != [] {
      var n := |es| - 1;
      CodedMatches(table, es[..n], mask);
      MatchesAnyBit(es[n], mask);
      var all := Matching(table, es, mask);
      if SharesBit(es[n].status, mask) {
        SameBytes(table[n].code);
        LowBits(es[n].status);
        assert all[..|all| - 1] == Matching(table, es[..n], mask);
      } else {
        assert all == Matching(table, es[..n], mask);
      }
    }
  }

  lemma {:induction false} CodedPrefix(codes: seq<DtcRecord>, n: nat)
    requires n <= |codes|
    ensures Coded(codes)[..4 * n] == Coded(codes[..n])
    decreases |codes|
  {
    if n == |codes| { assert codes[..n] == codes; }
    else {
      CodedPrefix(codes[..|codes| - 1], n);
      assert codes[..|codes| - 1][..n] == codes[..n];
    }
  }

  /**
   * Service 0x19: sub-function 1 counts the codes that match now, sub-function 2 lists them, as many as fit, unless
   * more than fit were counted. Bit 7 of the sub-function does not silence anything.
   */
  lemma ReadDtcService(s: Srv, w: World, now: u32, req: Bytes, functional: bool, respMax: u16)
    requires req != [] && req[0] == 0x19 && Fits(w, req)
    ensures Process(s, w, now, req, functional, respMax)
      == (s.(lastRequest := now),
          if |req| < 2 then Refused(req, 0x13, functional, respMax)
          else if req[1] !in {0x01, 0x02, 0x81, 0x82} then Refused(req, 0x12, functional, respMax)
          else if |req| != 3 then Refused(req, 0x13, functional, respMax)
          else
            var n := |Matching(w.table, w.counted, req[2] as bv8)|;
            var codes := Matching(w.table, w.copied, req[2] as bv8);
            var k := if |codes| <= Capacity(respMax) then |codes| else Capacity(respMax);
            if req[1] in {0x01, 0x81} then Sent([0x59, 0x01, 0x7F, 0x01, n / 256, n % 256], respMax)
            else if n > Capacity(respMax) then Refused(req, 0x14, functional, respMax)
            else Sent([0x59, 0x02, 0x7F], respMax) + Coded(codes[..k]))
  {
    hide Matching, MatchCount, MatchRecords, Coded, Room, Capacity, Known, Ids, Answers;
    CapacityIs(respMax);
    if |req| == 3 {
      var mask := req[2] as bv8;
      var codes := Matching(w.table, w.copied, mask);
      CodedMatches(w.table, w.copied, mask);
      if |codes| > Capacity(respMax) { CodedPrefix(codes, Capacity(respMax)); }
      else { assert codes[..|codes|] == codes; }
      var n := MatchCount(w.counted, mask);
      assert DtcHeader(1) + [1, Hi(n), Lo(n)] == [0x59, 0x01, 0x7F, 0x01, n / 256, n % 256];
      assert |codes| <= Capacity(respMax) ==> MatchRecords(w.table, w.copied, mask) == Coded(codes[..|codes|]);
    }
  }

  // ---------------------------------------------------------------------------------------------
  // Data identifiers, on both sides
  // ---------------------------------------------------------------------------------------------

  /** The first table entry with an identifier counts, in the server's table and in the client's list. */
  lemma {:induction false} FindIsFirst(dids: seq<Did>, id: u16)
    ensures match Find(dids, id)
      case None => forall i :: 0 <= i < |dids| ==> dids[i].id != id
      case Some(n) =>
        exists i :: 0 <= i < |dids| && dids[i] == Did(id, n) && forall j :: 0 <= j < i ==> dids[j].id != id
  {
    if dids != [] {
      if dids[0].id == id { assert dids[0] == Did(id, Find(dids, id).value); }
      else {
        FindIsFirst(dids[1..], id);
        assert forall j :: 1 <= j < |dids| ==> dids[j] == dids[1..][j - 1];
        if Find(dids, id).Some? {
          var i :| 0 <= i < |dids| - 1 && dids[1..][i] == Did(id, Find(dids, id).value)
            && forall j :: 0 <= j < i ==> dids[1..][j].id != id;
          assert dids[i + 1] == Did(id, Find(dids, id).value);
        }
      }
    }
  }

  lemma {:induction false} FindSpecIsFirst(specs: seq<DidSpec>, id: u16)
    ensures match FindSpec(specs, id)
      case None => forall i :: 0 <= i < |specs| ==> specs[i].id != id
      case Some(n) =>
        exists i :: 0 <= i < |specs| && specs[i] == DidSpec(id, n) && forall j :: 0 <= j < i ==> specs[j].id != id
  {
    if specs != [] {
      if specs[0].id == id { assert specs[0] == DidSpec(id, FindSpec(specs, id).value); }
      else {
        FindSpecIsFirst(specs[1..], id);
        assert forall j :: 1 <= j < |specs| ==> specs[j] == specs[1..][j - 1];
        if FindSpec(specs, id).Some? {
          var i :| 0 <= i < |specs| - 1 && specs[1..][i] == DidSpec(id, FindSpec(specs, id).value)
            && forall j :: 0 <= j < i ==> specs[1..][j].id != id;
          assert specs[i + 1] == DidSpec(id, FindSpec(specs, id).value);
        }
      }
    }
  }

  ghost predicate Supported(dids: seq<Did>, id: u16) { exists i :: 0 <= i < |dids| && dids[i].id == id }

  /** The identifiers the table holds, in the order they were asked for. */
  ghost function Kept(dids: seq<Did>, ids: seq<u16>): seq<u16> {
    if ids == [] then []
    else (if Supported(dids, ids[0]) then [ids[0]] else []) + Kept(dids, ids[1..])
  }

  lemma {:induction false} KeptAppend(dids: seq<Did>, ids: seq<u16>, id: u16)
    ensures Kept(dids, ids + [id]) == Kept(dids, ids) + (if Supported(dids, id) then [id] else [])
    decreases |ids|
  {
    hide Supported;
    if ids == [] { assert (ids + [id])[1..] == []; }
    else {
      KeptAppend(dids, ids[1..], id);
      assert (ids + [id])[1..] == ids[1..] + [id];
    }
  }

  lemma {:induction false} KnownIsKept(dids: seq<Did>, ids: seq<u16>)
    ensures Known(dids, ids) == Kept(dids, ids)
    decreases |ids|
  {
    hide Find;
    if ids != [] {
      var n := |ids| - 1;
      KnownIsKept(dids, ids[..n]);
      KeptAppend(dids, ids[..n], ids[n]);
      assert ids == ids[..n] + [ids[n]];
      FindIsFirst(dids, ids[n]);
    }
  }

  /** The identifiers as they stand in a request, high byte first. */
  function Asked(b: Bytes): seq<u16> {
    seq(|b| / 2, i requires 0 <= i < |b| / 2 => b[2 * i] as int * 256 + b[2 * i + 1])
  }

  lemma AskedStep(b: Bytes)
    ensures Asked(b) == if |b| < 2 then [] else [b[0] as int * 0x100 + b[1]] + Asked(b[2..])
  {
    if |b| >= 2 {
      var id: u16 := b[0] as int * 0x100 + b[1];
      var rest := Asked(b[2..]);
      assert |Asked(b)| == 1 + |rest|;
      forall i | 0 <= i < |Asked(b)| ensures Asked(b)[i] == ([id] + rest)[i] {
        if i > 0 { assert b[2..][2 * (i - 1)] == b[2 * i] && b[2..][2 * (i - 1) + 1] == b[2 * i + 1]; }
      }
    }
  }

  lemma {:induction false} IdsAreAsked(b: Bytes)
    ensures Ids(b) == Asked(b)
    decreases |b|
  {
    hide Ids, Asked;
    AskedStep(b);
    IdsStep(b);
    if |b| >= 2 { IdsAreAsked(b[2..]); }
  }

  /** Values on the bus: each identifier in two bytes, then its data. */
  function Wire(values: seq<DidValue>): Bytes {
    if values == [] then [] else [values[0].id / 256, values[0].id % 256] + values[0].data + Wire(values[1..])
  }

  lemma {:induction false} EncodeIsWire(ids: seq<u16>, data: seq<Bytes>)
    requires |ids| == |data|
    ensures Encode(ids, data) == Wire(Values(ids, data))
    decreases |ids|
  {
    if ids != [] {
      EncodeCons(ids, data);
      EncodeIsWire(ids[1..], data[1..]);
      assert Values(ids, data)[1..] == Values(ids[1..], data[1..]);
    }
  }

  /** Service 0x22: the values of the supported identifiers, in request order, if they fit. */
  lemma ReadDidService(s: Srv, w: World, now: u32, req: Bytes, functional: bool, respMax: u16)
    requires req != [] && req[0] == 0x22 && Fits(w, req)
    ensures var ids := Kept(w.dids, Asked(req[1..]));
      && |w.data| == |ids|
      && Process(s, w, now, req, functional, respMax)
         == (s.(lastRequest := now),
             if |req| < 3 || |req| % 2 == 0 then Refused(req, 0x13, functional, respMax)
             else if ids == [] then Refused(req, 0x31, functional, respMax)
             else if 1 + |Wire(Values(ids, w.data))| > respMax then Refused(req, 0x14, functional, respMax)
             else [0x62] + Wire(Values(ids, w.data)))
  {
    hide Known, Ids, Kept, Wire, Values, Encode, Space, Find, Asked;
    IdsAreAsked(req[1..]);
    KnownIsKept(w.dids, Asked(req[1..]));
    EncodeLength(w.dids, Known(w.dids, Asked(req[1..])), w.data);
    EncodeIsWire(Known(w.dids, Asked(req[1..])), w.data);
  }

  /** readDids asks for its identifiers, high byte first. */
  lemma {:induction false} RequestBytes(specs: seq<DidSpec>)
    ensures DidRequest(specs)[0] == 0x22
    ensures forall i :: 0 <= i < |specs| ==>
      DidRequest(specs)[1 + 2 * i] == specs[i].id / 256 && DidRequest(specs)[2 + 2 * i] == specs[i].id % 256
    decreases |specs|
  {
    if specs != [] { RequestBytes(specs[..|specs| - 1]); }
  }

  /** Every value has the length the client's list gives its identifier. */
  ghost predicate Specified(values: seq<DidValue>, specs: seq<DidSpec>) {
    forall i :: 0 <= i < |values| ==> FindSpec(specs, values[i].id) == Some(|values[i].data|)
  }

  /** What a successful parse says about the front of the bytes. */
  lemma ParseFront(b: Bytes, specs: seq<DidSpec>, v: DidValue, rest: seq<DidValue>) returns (tail: Bytes)
    requires Parse(b, specs) == Some([v] + rest)
    ensures b == [v.id / 256, v.id % 256] + v.data + tail && Parse(tail, specs) == Some(rest)
    ensures FindSpec(specs, v.id) == Some(|v.data|)
  {
    hide FindSpec;
    ParseStep(b, specs);
    var n := FindSpec(specs, b[0] as int * 0x100 + b[1]).value;
    tail := b[2 + n..];
    var more := Parse(tail, specs).value;
    var first := DidValue(b[0] as int * 0x100 + b[1], b[2..2 + n]);
    assert ([first] + more)[0] == ([v] + rest)[0] && ([first] + more)[1..] == more && ([v] + rest)[1..] == rest;
  }

  lemma ParseOnto(v: DidValue, tail: Bytes, specs: seq<DidSpec>)
    requires FindSpec(specs, v.id) == Some(|v.data|)
    ensures Parse([v.id / 256, v.id % 256] + v.data + tail, specs) == Join([v], Parse(tail, specs))
  {
    ParseOne(v.id, v.data, tail, specs);
  }

  lemma SpecifiedCons(v: DidValue, rest: seq<DidValue>, specs: seq<DidSpec>)
    ensures Specified([v] + rest, specs) <==> FindSpec(specs, v.id) == Some(|v.data|) && Specified(rest, specs)
  {
    hide FindSpec;
    var values := [v] + rest;
    assert values[0] == v && forall i :: 1 <= i < |values| ==> values[i] == rest[i - 1];
    if Specified(values, specs) {
      forall i | 0 <= i < |rest| ensures FindSpec(specs, rest[i].id) == Some(|rest[i].data|) {
        assert rest[i] == values[i + 1];
      }
    }
  }

  /** The client accepts exactly the bytes of values with the lengths it knows, and reads those values. */
  lemma {:induction false} ParseIsWire(b: Bytes, specs: seq<DidSpec>, values: seq<DidValue>)
    ensures Parse(b, specs) == Some(values) <==> b == Wire(values) && Specified(values, specs)
    decreases |values|
  {
    hide FindSpec, Parse, Specified;
    if values == [] { ParseOfNone(b, specs); }
    else {
      var v, rest := values[0], values[1..];
      assert values == [v] + rest;
      SpecifiedCons(v, rest, specs);
      if b == Wire(values) && Specified(values, specs) {
        ParseIsWire(Wire(rest), specs, rest);
        ParseOnto(v, Wire(rest), specs);
      }
      if Parse(b, specs) == Some(values) {
        var tail := ParseFront(b, specs, v, rest);
        ParseIsWire(tail, specs, rest);
      }
    }
  }

  lemma ParseOfNone(b: Bytes, specs: seq<DidSpec>)
    ensures Parse(b, specs) == Some([]) <==> b == []
    ensures Specified([], specs)
  {
    hide FindSpec;
    if b != [] { ParseStep(b, specs); }
  }

  // ---------------------------------------------------------------------------------------------
  // What the client accepts
  // ---------------------------------------------------------------------------------------------

  lemma CodeOfBytes(x: u8, y: u8, z: u8, code: u32)
    ensures x as int * 0x10000 + y as int * 0x100 + z == code
      <==> code < 0x100_0000 && x == code / 0x10000 % 0x100 && y == code / 0x100 % 0x100 && z == code % 0x100
  {
    CodeBytes(code);
    assert code / 0x10000 == code / 0x100 / 0x100;
  }

  lemma RecordsStep(b: Bytes)
    requires |b| % 4 == 0 && b != []
    ensures var n := |b| - 4;
      Records(b) == Records(b[..n]) + [DtcRecord(b[n] as int * 0x10000 + b[n + 1] as int * 0x100 + b[n + 2], b[n + 3])]
  {}

  lemma LastFour(b: Bytes, n: nat)
    requires |b| == n + 4
    ensures b == b[..n] + [b[n], b[n + 1], b[n + 2], b[n + 3]]
  {}

  ghost predicate Short(codes: seq<DtcRecord>) { forall i :: 0 <= i < |codes| ==> codes[i].code < 0x100_0000 }

  lemma ShortStep(codes: seq<DtcRecord>, x: DtcRecord)
    ensures Short(codes + [x]) <==> Short(codes) && x.code < 0x100_0000
  {
    var all := codes + [x];
    assert all[|codes|] == x && forall i :: 0 <= i < |codes| ==> all[i] == codes[i];
    if Short(all) {
      forall i | 0 <= i < |codes| ensures codes[i].code < 0x100_0000 { assert codes[i] == all[i]; }
    }
  }

  lemma CodedStep(codes: seq<DtcRecord>)
    requires codes != []
    ensures var x := codes[|codes| - 1];
      Coded(codes) == Coded(codes[..|codes| - 1])
                      + [x.code / 0x10000 % 0x100, x.code / 0x100 % 0x100, x.code % 0x100, x.status]
  {}

  /** One more record on both sides. */
  lemma SameEnd(a: Bytes, b: Bytes, x: seq<u8>, y: seq<u8>)
    requires |a| == |b| && |x| == |y|
    ensures a + x == b + y <==> a == b && x == y
  {
    if a + x == b + y {
      assert (a + x)[..|a|] == a && (b + y)[..|b|] == b;
      assert (a + x)[|a|..] == x && (b + y)[|b|..] == y;
    }
  }

  lemma SameLast(a: seq<DtcRecord>, b: seq<DtcRecord>, x: DtcRecord, y: DtcRecord)
    requires |a| == |b|
    ensures a + [x] == b + [y] <==> a == b && x == y
  {
    if a + [x] == b + [y] { assert (a + [x])[..|a|] == a && (b + [y])[..|b|] == b && (a + [x])[|a|] == (b + [y])[|b|]; }
  }

  /** Exactly the bytes of 24-bit codes are read as those codes. */
  lemma {:induction false} RecordsAreCoded(b: Bytes, codes: seq<DtcRecord>)
    requires |b| % 4 == 0
    ensures Records(b) == codes <==> b == Coded(codes) && Short(codes)
    decreases |b|
  {
    hide Records, Coded, Short;
    if |b| == 0 || |b| != 4 * |codes| { NoCodes(); }
    else {
      var n, k := |b| - 4, |codes| - 1;
      var x := codes[k];
      RecordsAreCoded(b[..n], codes[..k]);
      CodeOfBytes(b[n], b[n + 1], b[n + 2], x.code);
      RecordsStep(b);
      LastFour(b, n);
      CodedStep(codes);
      assert codes == codes[..k] + [x];
      ShortStep(codes[..k], x);
      SameEnd(b[..n], Coded(codes[..k]), [b[n], b[n + 1], b[n + 2], b[n + 3]],
              [x.code / 0x10000 % 0x100, x.code / 0x100 % 0x100, x.code % 0x100, x.status]);
      SameLast(Records(b[..n]), codes[..k],
               DtcRecord(b[n] as int * 0x10000 + b[n + 1] as int * 0x100 + b[n + 2], b[n + 3]), x);
    }
  }

  lemma NoCodes()
    ensures Coded([]) == [] && Short([])
  {}

  /** readDtcs succeeds exactly on a second byte 2 and whole records. */
  lemma DtcsAccepted(b: Bytes, codes: seq<DtcRecord>)
    ensures DtcResult(Success(b)) == Success(codes)
      <==> |b| >= 3 && b[1] == 2 && b[3..] == Coded(codes) && Short(codes)
  {
    hide Records, Coded, Short;
    if |b| >= 3 && (|b| - 3) % 4 == 0 { RecordsAreCoded(b[3..], codes); }
  }

  /** The other calls: which response is accepted, and what the caller is told. */
  lemma OthersAccepted(b: Bytes, session: u8, sub: u8, id: u16)
    ensures SessionResult(Success(b), session)
      == if |b| == 6 && b[1] == session
         then Success(SessionTiming(b[2] as int * 256 + b[3], b[4] as int * 2560 + b[5] as int * 10))
         else Failure(Malformed)
    ensures EchoResult(Success(b), sub, false) == if |b| >= 2 && b[1] == sub then Success(()) else Failure(Malformed)
    ensures EchoResult(Success(b), sub, true) == if |b| == 2 && b[1] == sub then Success(()) else Failure(Malformed)
    ensures CountResult(Success(b))
      == if |b| == 6 && b[1] == 1 then Success(b[4] as int * 256 + b[5]) else Failure(Malformed)
    ensures ClearResult(Success(b)) == if |b| == 1 then Success(()) else Failure(Malformed)
    ensures OneDidResult(Success(b), id)
      == if |b| >= 3 && b[1] == id / 256 && b[2] == id % 256 then Success(b[3..]) else Failure(Malformed)
  {}

  /** readDids succeeds exactly on some first byte and the bytes of values with the lengths asked for. */
  lemma DidsAccepted(b: Bytes, specs: seq<DidSpec>, values: seq<DidValue>)
    ensures DidResult(Success(b), specs) == Success(values)
      <==> b != [] && b[1..] == Wire(values) && Specified(values, specs)
  {
    hide Parse, Wire, Specified;
    if b != [] { ParseIsWire(b[1..], specs, values); }
  }

  /** What went wrong before is what the caller is told. */
  lemma ErrorsPass(e: Error, specs: seq<DidSpec>, session: u8, sub: u8, exact: bool, id: u16)
    ensures DidResult(Failure(e), specs) == Failure(e) && DtcResult(Failure(e)) == Failure(e)
    ensures CountResult(Failure(e)) == Failure(e) && ClearResult(Failure(e)) == Failure(e)
    ensures SessionResult(Failure(e), session) == Failure(e) && EchoResult(Failure(e), sub, exact) == Failure(e)
    ensures OneDidResult(Failure(e), id) == Failure(e)
  {}
}
