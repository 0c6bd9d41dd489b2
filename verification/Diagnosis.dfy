/**
 * From monitor reports to the tester's screen: what a client that asks for confirmed trouble codes is told, in
 * terms of what was reported for each code since the last clear.
 */
module Diagnosis {
  import opened Words
  import opened Dtc
  import opened DtcManager
  import opened UdsModel
  import opened UdsClient
  import opened UdsRoundTrip
  import IsoTpPair
  import opened UdsExchange

  /**
   * The codes with a run of failures, not interrupted by a pass, as long as their table entry asks for, where 0 stands
   * for 1; in table order.
   */
  ghost function ConfirmedCodes(table: seq<Config>, history: seq<seq<Event>>): seq<int>
    requires |history| <= |table|
  {
    if history == [] then []
    else
      var n := |history| - 1;
      var c := table[n].confirmThreshold;
      ConfirmedCodes(table, history[..n])
      + (if RunOfFailures(history[n], if c == 0 then 1 else c) then [table[n].code % 0x100_0000] else [])
  }

  function Codes(r: seq<DtcRecord>): (c: seq<int>)
    ensures |c| == |r|
  {
    seq(|r|, i requires 0 <= i < |r| => r[i].code)
  }

  /** Each entry is what its history makes it. */
  ghost predicate Recorded(table: seq<Config>, es: seq<Entry>, history: seq<seq<Event>>) {
    |es| == |history| <= |table| && forall i :: 0 <= i < |es| ==> es[i] == Replay(Threshold(table[i]), history[i])
  }

  lemma ConfirmedBit(threshold: u8, h: seq<Event>)
    requires threshold >= 1
    ensures Matches(Replay(threshold, h), 0x08) <==> RunOfFailures(h, threshold)
  {
    StatusMeaning(threshold, h);
    SameBit(Replay(threshold, h));
    hide Replay, RunOfFailures, Matches, Has, LastFailed, FailedWithin, Tested, EverFailed, TestedThisCycle, CurrentRun;
  }

  lemma SameBit(e: Entry)
    ensures Matches(e, 0x08) <==> Has(e.status, 0x08)
  {}

  lemma {:induction false} MatchingIsConfirmed(table: seq<Config>, es: seq<Entry>, history: seq<seq<Event>>)
    requires Recorded(table, es, history)
    ensures Codes(Matching(table, es, 0x08)) == ConfirmedCodes(table, history)
    decreases |es|
  {
    hide Replay, RunOfFailures, Matches;
    if es != [] {
      var n := |es| - 1;
      MatchingIsConfirmed(table, es[..n], history[..n]);
      ConfirmedBit(Threshold(table[n]), history[n]);
      var r := Matching(table, es[..n], 0x08);
      forall x: DtcRecord ensures Codes(r + [x]) == Codes(r) + [x.code] {}
      assert r + [] == r;
    }
  }

  lemma CodesPrefix(r: seq<DtcRecord>, n: nat)
    requires n <= |r|
    ensures Codes(r[..n]) == Codes(r)[..n]
  {}

  /**
   * The confirmed codes the client reads are exactly the codes that failed at least their threshold of times without
   * a passed report in between, at any time since the last clear, in table order and up to what fits; it is refused
   * exactly if too many were confirmed when they were counted. Other tasks may report between counting and copying.
   */
  lemma ConfirmedAsReported(s: Srv, w: World, now: u32, history: seq<seq<Event>>, respMax: u16)
    requires Fits(w, [0x19, 2, 0x08]) && respMax >= 3 && Recorded(w.table, w.copied, history)
    ensures var r := DtcResult(Answer(s, w, now, [0x19, 2, 0x08], respMax));
      var codes := ConfirmedCodes(w.table, history);
      if MatchCount(w.counted, 0x08) > Room(respMax) then r == Failure(Negative(0x14))
      else r.Success? && Codes(r.value) == if |codes| <= Room(respMax) then codes else codes[..Room(respMax)]
  {
    hide Fits, Matching, MatchCount, Answer, DtcResult, ConfirmedCodes, Room, Replay, Codes;
    ReadDtcsRoundTrip(s, w, now, 0x08, respMax);
    MatchingIsConfirmed(w.table, w.copied, history);
    var all := Matching(w.table, w.copied, 0x08);
    if |all| > Room(respMax) { CodesPrefix(all, Room(respMax)); }
  }

  /**
   * Across the bus nothing is ever refused or cut off: whatever response to this request the client hears, in any
   * reachable conversation over two links, tells exactly the codes that were confirmed when they were copied.
   */
  lemma ConfirmedOverTheBus(v: Conv, c: IsoTpPair.Configs, history: seq<seq<Event>>)
    requires Reachable(v, c) && |v.sys.a.inds| > v.heard && v.sys.a.accepted != []
    requires v.sys.a.accepted[|v.sys.a.accepted| - 1] == [0x19, 2, 0x08]
    ensures Heard(v)
    ensures var w := Last(v).world;
      Recorded(w.table, w.copied, history) ==>
        var r := DtcResult(Final(0x19, Some(Response(v))));
        r.Success? && Codes(r.value) == ConfirmedCodes(w.table, history)
  {
    hide DtcResult, ConfirmedCodes, Replay, Final, Reachable, IsoTpPair.Valid, Right, Matching, Codes;
    ReadDtcsOverTheBus(v, c, 0x08);
    var w := Last(v).world;
    if Recorded(w.table, w.copied, history) { MatchingIsConfirmed(w.table, w.copied, history); }
  }
}
