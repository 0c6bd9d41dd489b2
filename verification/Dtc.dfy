/**
 * common/dtc/dtc_manager.c: the status byte of a trouble code is a compressed history (section D.2 of
 * ISO 14229-1:2013).
 *
 * The manager keeps one byte and one saturating counter per code. The class below also records, as ghost
 * state, what happened to each code since the last clear; `StatusMeaning` says what every bit means in terms
 * of that history alone.
 */
module Dtc {
  import opened Words

  const TF: bv8 := 0x01
  const TFTOC: bv8 := 0x02
  const PDTC: bv8 := 0x04
  const CDTC: bv8 := 0x08
  const TNCSLC: bv8 := 0x10
  const TFSLC: bv8 := 0x20
  const TNCTOC: bv8 := 0x40
  const WIR: bv8 := 0x80
  const AVAILABILITY: bv8 := 0x7F
  const STATUS_INITIAL: bv8 := TNCSLC | TNCTOC
  const MAX_ENTRIES: int := 16

  datatype Config = Config(code: u32, confirmThreshold: u8)

  datatype Entry = Entry(status: bv8, failCount: u8)

  /** What can happen to a code between two clears. */
  datatype Event = Passed | Failed | CycleStart

  function Threshold(c: Config): u8 { if c.confirmThreshold == 0 then 1 else c.confirmThreshold }

  function Initial(): Entry { Entry(STATUS_INITIAL, 0) }

  predicate Has(status: bv8, bit: bv8) { status & bit != 0 }

  /** DtcMgr_ReportResult for one entry. */
  function Report(e: Entry, threshold: u8, failed: bool): Entry {
    var tested := e.status & !(TNCTOC | TNCSLC);
    if failed then
      var count := if e.failCount < 0xFF then e.failCount + 1 else e.failCount;
      var status := tested | (TF | TFTOC | TFSLC | PDTC);
      Entry(if count >= threshold then status | CDTC else status, count)
    else
      Entry(tested & !TF, 0)
  }

  /** DtcMgr_StartOperationCycle for one entry. */
  function NextCycle(e: Entry): Entry {
    var status := if e.status & TFTOC == 0 then e.status & !PDTC else e.status;
    e.(status := (status & !TFTOC) | TNCTOC)
  }

  function Apply(e: Entry, threshold: u8, ev: Event): Entry {
    match ev
    case Passed => Report(e, threshold, false)
    case Failed => Report(e, threshold, true)
    case CycleStart => NextCycle(e)
  }

  ghost function Replay(threshold: u8, h: seq<Event>): Entry {
    if h == [] then Initial() else Apply(Replay(threshold, h[..|h| - 1]), threshold, h[|h| - 1])
  }

  // ---------------------------------------------------------------------------------------------
  // The meaning of the history, without any status byte
  // ---------------------------------------------------------------------------------------------

  ghost function CountOf(h: seq<Event>, ev: Event): nat {
    if h == [] then 0 else CountOf(h[..|h| - 1], ev) + (if h[|h| - 1] == ev then 1 else 0)
  }

  /** The latest report, if any, was a failure. */
  ghost predicate LastFailed(h: seq<Event>) {
    exists i :: 0 <= i < |h| && h[i] == Failed && CountOf(h[i..], Passed) == 0
  }

  /** A failure with at most `n` cycle starts after it. */
  ghost predicate FailedWithin(h: seq<Event>, n: nat) {
    exists i :: 0 <= i < |h| && h[i] == Failed && CountOf(h[i..], CycleStart) <= n
  }

  /** Some stretch of the history without a passed report holds at least `n` failures. */
  ghost predicate RunOfFailures(h: seq<Event>, n: nat) {
    exists i, j :: 0 <= i <= j <= |h| && CountOf(h[i..j], Passed) == 0 && CountOf(h[i..j], Failed) >= n
  }

  ghost predicate Tested(h: seq<Event>) { exists i :: 0 <= i < |h| && h[i] != CycleStart }

  ghost predicate TestedThisCycle(h: seq<Event>) {
    exists i :: 0 <= i < |h| && h[i] != CycleStart && CountOf(h[i..], CycleStart) == 0
  }

  ghost predicate EverFailed(h: seq<Event>) { exists i :: 0 <= i < |h| && h[i] == Failed }

  /** The failures since the last passed report. */
  ghost function CurrentRun(h: seq<Event>): nat {
    if h == [] || h[|h| - 1] == Passed then 0
    else CurrentRun(h[..|h| - 1]) + (if h[|h| - 1] == Failed then 1 else 0)
  }

  // ---------------------------------------------------------------------------------------------
  // How each notion grows with the history
  // ---------------------------------------------------------------------------------------------

  lemma CountAppend(h: seq<Event>, x: Event, ev: Event)
    ensures CountOf(h + [x], ev) == CountOf(h, ev) + (if x == ev then 1 else 0)
  {
    assert (h + [x])[..|h|] == h;
  }

  lemma CountTail(h: seq<Event>, x: Event, i: nat, ev: Event)
    requires i <= |h|
    ensures CountOf((h + [x])[i..], ev) == CountOf(h[i..], ev) + (if x == ev then 1 else 0)
  {
    assert (h + [x])[i..] == h[i..] + [x];
    CountAppend(h[i..], x, ev);
  }

  lemma CountsTail(h: seq<Event>, x: Event)
    ensures forall i, ev :: 0 <= i <= |h| ==>
      CountOf((h + [x])[i..], ev) == CountOf(h[i..], ev) + (if x == ev then 1 else 0)
  {
    forall i, ev | 0 <= i <= |h|
      ensures CountOf((h + [x])[i..], ev) == CountOf(h[i..], ev) + (if x == ev then 1 else 0)
    {
      CountTail(h, x, i, ev);
    }
  }

  lemma LastFailedGrows(h: seq<Event>, x: Event)
    ensures LastFailed(h + [x]) <==> x == Failed || (x == CycleStart && LastFailed(h))
  {
    CountsTail(h, x);
    var g := h + [x];
    assert g[|h|..] == [x] && CountOf([x], Passed) == CountOf([], Passed) + (if x == Passed then 1 else 0) by {
      CountTail(h, x, |h|, Passed);
    }
    if LastFailed(h) && x != Passed {
      var i :| 0 <= i < |h| && h[i] == Failed && CountOf(h[i..], Passed) == 0;
      assert g[i] == Failed && CountOf(g[i..], Passed) == 0;
    }
    if x == Failed { assert g[|h|] == Failed && CountOf(g[|h|..], Passed) == 0; }
    if LastFailed(g) && x != Failed {
      var i :| 0 <= i < |g| && g[i] == Failed && CountOf(g[i..], Passed) == 0;
      assert h[i] == Failed && CountOf(h[i..], Passed) == 0;
    }
  }

  lemma CountEmpty(h: seq<Event>)
    ensures forall ev :: CountOf(h[|h|..], ev) == 0
  {}

  lemma FailedWithinGrows(h: seq<Event>, x: Event, n: nat)
    ensures FailedWithin(h + [x], n) <==>
      x == Failed || (if x == CycleStart then n > 0 && FailedWithin(h, n - 1) else FailedWithin(h, n))
  {
    hide FailedWithin;
    if x == Failed { JustFailed(h, n); }
    else if FailedWithin(h + [x], n) { FailedBefore(h, x, n); }
    if x == CycleStart { if n > 0 && FailedWithin(h, n - 1) { FailedStays(h, x, n - 1); } }
    else if FailedWithin(h, n) { FailedStays(h, x, n); }
  }

  lemma JustFailed(h: seq<Event>, n: nat)
    ensures FailedWithin(h + [Failed], n)
  {
    var g := h + [Failed];
    CountTail(h, Failed, |h|, CycleStart);
    CountEmpty(h);
    hide CountOf;
    assert g[|h|] == Failed && CountOf(g[|h|..], CycleStart) == 0;
  }

  lemma FailedStays(h: seq<Event>, x: Event, k: nat)
    requires FailedWithin(h, k)
    ensures FailedWithin(h + [x], if x == CycleStart then k + 1 else k)
  {
    hide CountOf;
    var i :| 0 <= i < |h| && h[i] == Failed && CountOf(h[i..], CycleStart) <= k;
    CountTail(h, x, i, CycleStart);
    assert (h + [x])[i] == Failed;
  }

  lemma FailedBefore(h: seq<Event>, x: Event, n: nat)
    requires x != Failed && FailedWithin(h + [x], n)
    ensures if x == CycleStart then n > 0 && FailedWithin(h, n - 1) else FailedWithin(h, n)
  {
    hide CountOf;
    var g := h + [x];
    var i :| 0 <= i < |g| && g[i] == Failed && CountOf(g[i..], CycleStart) <= n;
    CountTail(h, x, i, CycleStart);
    assert h[i] == Failed;
  }

  lemma TestedGrows(h: seq<Event>, x: Event)
    ensures TestedThisCycle(h + [x]) <==> x != CycleStart
    ensures Tested(h + [x]) <==> x != CycleStart || Tested(h)
    ensures EverFailed(h + [x]) <==> x == Failed || EverFailed(h)
  {
    CountsTail(h, x);
    var g := h + [x];
    if x != CycleStart { assert h[|h|..] == []; assert g[|h|] != CycleStart && CountOf(g[|h|..], CycleStart) == 0; }
    if Tested(h) { var i :| 0 <= i < |h| && h[i] != CycleStart; assert g[i] != CycleStart; }
    if EverFailed(h) { var i :| 0 <= i < |h| && h[i] == Failed; assert g[i] == Failed; }
    if x == Failed { assert g[|h|] == Failed; }
  }

  /** The current run is the longest failure stretch that reaches the end of the history. */
  lemma {:induction false} CurrentRunStretch(h: seq<Event>)
    ensures exists i :: 0 <= i <= |h| && CountOf(h[i..], Passed) == 0 && CountOf(h[i..], Failed) == CurrentRun(h)
    ensures forall i :: 0 <= i <= |h| && CountOf(h[i..], Passed) == 0 ==> CountOf(h[i..], Failed) <= CurrentRun(h)
    decreases |h|
  {
    if h == [] {
      assert h[0..] == [];
    } else {
      var g, x := h[..|h| - 1], h[|h| - 1];
      assert h == g + [x];
      CurrentRunStretch(g);
      CountsTail(g, x);
      assert h[|h|..] == [];
      if x == Passed {
        assert CountOf(h[|h|..], Passed) == 0;
      } else {
        var i :| 0 <= i <= |g| && CountOf(g[i..], Passed) == 0 && CountOf(g[i..], Failed) == CurrentRun(g);
        assert CountOf(h[i..], Passed) == 0 && CountOf(h[i..], Failed) == CurrentRun(h);
      }
    }
  }

  /** A stretch with at least one failure that reaches the end, when the last event is no failure, was there before. */
  lemma StretchBefore(h: seq<Event>, x: Event, i: nat, n: nat)
    requires n >= 1 && i <= |h| + 1 && x != Failed
    requires CountOf((h + [x])[i..], Passed) == 0 && CountOf((h + [x])[i..], Failed) >= n
    ensures RunOfFailures(h, n)
  {
    var g := h + [x];
    CountEmpty(g);
    CountTail(h, x, i, Failed);
    CountTail(h, x, i, Passed);
    hide CountOf;
    assert h[i..|h|] == h[i..];
  }

  lemma RunKept(h: seq<Event>, x: Event, n: nat)
    requires RunOfFailures(h, n)
    ensures RunOfFailures(h + [x], n)
  {
    hide CountOf;
    var i, j :| 0 <= i <= j <= |h| && CountOf(h[i..j], Passed) == 0 && CountOf(h[i..j], Failed) >= n;
    assert (h + [x])[i..j] == h[i..j];
  }

  lemma RunGrows(h: seq<Event>, x: Event, n: nat)
    requires n >= 1
    ensures RunOfFailures(h + [x], n) <==> RunOfFailures(h, n) || (x == Failed && CurrentRun(h + [x]) >= n)
  {
    hide CountOf, CurrentRun;
    var g := h + [x];
    CurrentRunStretch(g);
    if RunOfFailures(h, n) { RunKept(h, x, n); }
    if CurrentRun(g) >= n {
      var i :| 0 <= i <= |g| && CountOf(g[i..], Passed) == 0 && CountOf(g[i..], Failed) == CurrentRun(g);
      assert g[i..|g|] == g[i..];
    }
    if RunOfFailures(g, n) {
      var i, j :| 0 <= i <= j <= |g| && CountOf(g[i..j], Passed) == 0 && CountOf(g[i..j], Failed) >= n;
      if j <= |h| { assert h[i..j] == g[i..j]; }
      else {
        assert g[i..j] == g[i..];
        if x != Failed { StretchBefore(h, x, i, n); }
      }
    }
  }

  // ---------------------------------------------------------------------------------------------
  // The theorem
  // ---------------------------------------------------------------------------------------------

  /** Each bit of the status byte, by its value, and the counter. */
  ghost predicate Meaning(e: Entry, h: seq<Event>, threshold: u8) {
    && (Has(e.status, 0x01) <==> LastFailed(h))
    && (Has(e.status, 0x02) <==> FailedWithin(h, 0))
    && (Has(e.status, 0x04) <==> FailedWithin(h, 1))
    && (Has(e.status, 0x08) <==> RunOfFailures(h, threshold))
    && (Has(e.status, 0x10) <==> !Tested(h))
    && (Has(e.status, 0x20) <==> EverFailed(h))
    && (Has(e.status, 0x40) <==> !TestedThisCycle(h))
    && !Has(e.status, 0x80)
    && e.failCount == (if CurrentRun(h) < 255 then CurrentRun(h) else 255)
  }

  /** The effect of one event on every bit, without the history. */
  lemma ReportBits(e: Entry, threshold: u8, failed: bool)
    ensures var r := Report(e, threshold, failed);
      && (Has(r.status, TF) <==> failed)
      && (Has(r.status, TFTOC) <==> failed || Has(e.status, TFTOC))
      && (Has(r.status, PDTC) <==> failed || Has(e.status, PDTC))
      && (Has(r.status, CDTC) <==> Has(e.status, CDTC) || (failed && r.failCount >= threshold))
      && !Has(r.status, TNCSLC) && !Has(r.status, TNCTOC)
      && (Has(r.status, TFSLC) <==> failed || Has(e.status, TFSLC))
      && (Has(r.status, WIR) <==> Has(e.status, WIR))
  {}

  lemma CycleBits(e: Entry)
    ensures var r := NextCycle(e);
      && (Has(r.status, TF) <==> Has(e.status, TF))
      && !Has(r.status, TFTOC)
      && (Has(r.status, PDTC) <==> Has(e.status, PDTC) && Has(e.status, TFTOC))
      && (Has(r.status, CDTC) <==> Has(e.status, CDTC))
      && (Has(r.status, TNCSLC) <==> Has(e.status, TNCSLC))
      && (Has(r.status, TFSLC) <==> Has(e.status, TFSLC))
      && Has(r.status, TNCTOC)
      && (Has(r.status, WIR) <==> Has(e.status, WIR))
      && r.failCount == e.failCount
  {}

  lemma WithinMono(h: seq<Event>)
    ensures FailedWithin(h, 0) ==> FailedWithin(h, 1)
  {
    if FailedWithin(h, 0) {
      var i :| 0 <= i < |h| && h[i] == Failed && CountOf(h[i..], CycleStart) <= 0;
      assert CountOf(h[i..], CycleStart) <= 1;
    }
  }

  lemma MeaningStep(e: Entry, h: seq<Event>, threshold: u8, x: Event)
    requires Meaning(e, h, threshold) && threshold >= 1
    ensures Meaning(Apply(e, threshold, x), h + [x], threshold)
  {
    hide Report, NextCycle, Has, LastFailed, FailedWithin, RunOfFailures, Tested, EverFailed, TestedThisCycle,
        CurrentRun, CountOf;
    LastFailedGrows(h, x);
    FailedWithinGrows(h, x, 0);
    FailedWithinGrows(h, x, 1);
    RunGrows(h, x, threshold);
    TestedGrows(h, x);
    WithinMono(h);
    CurrentRunAppend(h, x);
    match x
    case CycleStart => CycleBits(e);
    case Failed => ReportBits(e, threshold, true); CountsReport(e, threshold);
    case Passed => ReportBits(e, threshold, false); CountsReport(e, threshold);
  }

  lemma CurrentRunAppend(h: seq<Event>, x: Event)
    ensures CurrentRun(h + [x]) == (if x == Passed then 0 else CurrentRun(h) + (if x == Failed then 1 else 0))
  {
    assert (h + [x])[..|h|] == h;
  }

  lemma CountsReport(e: Entry, threshold: u8)
    ensures Report(e, threshold, false).failCount == 0
    ensures Report(e, threshold, true).failCount == (if e.failCount < 0xFF then e.failCount + 1 else 0xFF)
  {}

  /**
   * Every status bit and the counter are a function of the history since the last clear; the saturating
   * 8-bit counter is still exact for every threshold.
   */
  lemma {:induction false} StatusMeaning(threshold: u8, h: seq<Event>)
    requires threshold >= 1
    ensures Meaning(Replay(threshold, h), h, threshold)
    decreases |h|
  {
    hide Apply, Meaning;
    if h == [] { InitialMeaning(threshold); }
    else {
      StatusMeaning(threshold, h[..|h| - 1]);
      MeaningStep(Replay(threshold, h[..|h| - 1]), h[..|h| - 1], threshold, h[|h| - 1]);
      assert h == h[..|h| - 1] + [h[|h| - 1]];
    }
  }

  lemma InitialMeaning(threshold: u8)
    requires threshold >= 1
    ensures Meaning(Initial(), [], threshold)
  {
    var h: seq<Event> := [];
    assert forall i, j :: 0 <= i <= j <= |h| ==> h[i..j] == [];
  }

  /** After one failure and two cycle starts a code reports testFailed without pendingDTC. */
  lemma FailedWithoutPending(threshold: u8)
    requires threshold >= 1
    ensures var e := Replay(threshold, [Failed, CycleStart, CycleStart]);
      Has(e.status, TF) && !Has(e.status, PDTC)
  {
    var h := [Failed, CycleStart, CycleStart];
    var e1 := Report(Initial(), threshold, true);
    hide Report, NextCycle, Has;
    assert h[..2] == [Failed, CycleStart] && [Failed, CycleStart][..1] == [Failed] && [Failed][..0] == [];
    assert Replay(threshold, [Failed]) == e1;
    assert Replay(threshold, [Failed, CycleStart]) == NextCycle(e1);
    assert Replay(threshold, h) == NextCycle(NextCycle(e1));
    ReportBits(Initial(), threshold, true);
    CycleBits(e1);
    CycleBits(NextCycle(e1));
  }

  /** k failures in a row hold a run of n exactly if k is at least n. */
  lemma {:induction false} FailuresInARow(k: nat, n: nat)
    requires n >= 1
    ensures RunOfFailures(seq(k, _ => Failed), n) <==> k >= n
    ensures CurrentRun(seq(k, _ => Failed)) == k
  {
    hide RunOfFailures, CurrentRun;
    if k == 0 {
      assert seq(0, _ => Failed) == [];
      NothingYet(n);
    } else {
      FailuresInARow(k - 1, n);
      assert seq(k, _ => Failed) == seq(k - 1, _ => Failed) + [Failed];
      RunGrows(seq(k - 1, _ => Failed), Failed, n);
      CurrentRunAppend(seq(k - 1, _ => Failed), Failed);
    }
  }

  lemma NothingYet(n: nat)
    requires n >= 1
    ensures !RunOfFailures([], n) && CurrentRun([]) == 0
  {
    var h: seq<Event> := [];
    assert forall i, j :: 0 <= i <= j <= |h| ==> h[i..j] == [];
  }
}
