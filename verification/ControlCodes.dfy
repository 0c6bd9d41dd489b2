/**
 * From the monitor of control_app.c to the trouble codes of diag_app.c: which faults, seen in which monitor cycles,
 * make which codes confirmed.
 */
module ControlCodes {
  import opened Words
  import opened Dtc
  import opened DtcManager
  import opened Diagnosis
  import ControlApp
  import T = DiagTimeline
  import UdsClient
  import UdsExchange

  /** The trouble codes of the Control ECU with their thresholds, in the order of the monitor's faults. */
  const CODES: seq<Config> := [
    Config(0xC10087, 1), Config(0x050100, 3), Config(0xC40081, 3), Config(0x050096, 3), Config(0x9A0011, 3)
  ]

  /** The fault flags of one monitor cycle. */
  type Flags = f: seq<bool> | |f| == 5 witness [false, false, false, false, false]

  /** A monitor cycle, or ControlApp_SoftReset, which starts a new operation cycle. */
  datatype Round = Cycle(flags: Flags) | SoftReset

  function Tells(r: Round, k: nat): Event
    requires k < 5
  {
    match r
    case Cycle(flags) => if flags[k] then Failed else Passed
    case SoftReset => CycleStart
  }

  /** What the rounds since the last clear have told about fault k. */
  ghost function ToldAbout(rounds: seq<Round>, k: nat): seq<Event>
    requires k < 5
  {
    seq(|rounds|, i requires 0 <= i < |rounds| => Tells(rounds[i], k))
  }

  ghost function ToldAll(rounds: seq<Round>): (h: seq<seq<Event>>)
    ensures |h| == 5
  {
    [ToldAbout(rounds, 0), ToldAbout(rounds, 1), ToldAbout(rounds, 2), ToldAbout(rounds, 3), ToldAbout(rounds, 4)]
  }

  /** The monitor cycles among the rounds. */
  ghost function Cycles(rounds: seq<Round>): seq<Flags> {
    if rounds == [] then []
    else
      var n := |rounds| - 1;
      Cycles(rounds[..n]) + (if rounds[n].Cycle? then [rounds[n].flags] else [])
  }

  /** Fault k was present in n monitor cycles in a row. */
  ghost predicate InARow(cycles: seq<Flags>, k: nat, n: nat)
    requires k < 5
  {
    exists i: nat :: PresentFrom(cycles, k, i, n)
  }

  ghost predicate PresentFrom(cycles: seq<Flags>, k: nat, i: nat, n: nat)
    requires k < 5
  {
    i + n <= |cycles| && forall j :: i <= j < i + n ==> cycles[j][k]
  }

  /** One more cycle of the monitor, as `ControlApp.App.Monitor` reports it. */
  lemma OneMoreCycle(rounds: seq<Round>, flags: Flags, after: seq<seq<Event>>)
    requires ControlApp.Told(ToldAll(rounds), after, flags, 5)
    ensures after == ToldAll(rounds + [Cycle(flags)])
  {
    OneMore(rounds, Cycle(flags));
  }

  /** One more soft reset, as DtcMgr_StartOperationCycle records it. */
  lemma OneMoreReset(rounds: seq<Round>)
    ensures After(ToldAll(rounds), CycleStarted) == ToldAll(rounds + [SoftReset])
  {
    OneMore(rounds, SoftReset);
  }

  lemma OneMore(rounds: seq<Round>, r: Round)
    ensures forall k :: 0 <= k < 5 ==> ToldAll(rounds + [r])[k] == ToldAll(rounds)[k] + [Tells(r, k)]
  {
    forall k: nat | k < 5 ensures ToldAbout(rounds + [r], k) == ToldAbout(rounds, k) + [Tells(r, k)] {}
    assert forall k :: 0 <= k < 5 ==> ToldAll(rounds)[k] == ToldAbout(rounds, k);
    assert forall k :: 0 <= k < 5 ==> ToldAll(rounds + [r])[k] == ToldAbout(rounds + [r], k);
  }

  /** The reports about fault k in these monitor cycles. */
  ghost function Reports(cycles: seq<Flags>, k: nat): seq<Event>
    requires k < 5
  {
    seq(|cycles|, i requires 0 <= i < |cycles| => if cycles[i][k] then Failed else Passed)
  }

  /** A soft reset neither makes nor breaks a run of failures. */
  lemma {:induction false} ResetsDoNotMatter(rounds: seq<Round>, k: nat, n: nat)
    requires k < 5 && n >= 1
    ensures RunOfFailures(ToldAbout(rounds, k), n) <==> RunOfFailures(Reports(Cycles(rounds), k), n)
    ensures CurrentRun(ToldAbout(rounds, k)) == CurrentRun(Reports(Cycles(rounds), k))
    decreases |rounds|
  {
    hide RunOfFailures, CurrentRun;
    if rounds == [] { assert ToldAbout(rounds, k) == Reports(Cycles(rounds), k); }
    else {
      var g, r := rounds[..|rounds| - 1], rounds[|rounds| - 1];
      ResetsDoNotMatter(g, k, n);
      var h, c := ToldAbout(g, k), Reports(Cycles(g), k);
      assert ToldAbout(rounds, k) == h + [Tells(r, k)];
      RunGrows(h, Tells(r, k), n);
      CurrentRunAppend(h, Tells(r, k));
      if r.Cycle? {
        assert Reports(Cycles(rounds), k) == c + [Tells(r, k)];
        RunGrows(c, Tells(r, k), n);
        CurrentRunAppend(c, Tells(r, k));
      } else {
        assert Cycles(rounds) == Cycles(g);
      }
    }
  }

  lemma {:induction false} CountAll(h: seq<Event>)
    ensures CountOf(h, Failed) + CountOf(h, Passed) <= |h|
    ensures CountOf(h, Passed) == 0 <==> forall i :: 0 <= i < |h| ==> h[i] != Passed
    ensures (forall i :: 0 <= i < |h| ==> h[i] == Failed) ==> CountOf(h, Failed) == |h|
    decreases |h|
  {
    if h != [] { CountAll(h[..|h| - 1]); }
  }

  /** Without cycle starts a run of n failures is n failures in a row. */
  lemma RunIsInARow(cycles: seq<Flags>, k: nat, n: nat)
    requires k < 5 && n >= 1
    ensures RunOfFailures(Reports(cycles, k), n) <==> InARow(cycles, k, n)
  {
    hide CountOf;
    var h := Reports(cycles, k);
    if RunOfFailures(h, n) {
      var i, j :| 0 <= i <= j <= |h| && CountOf(h[i..j], Passed) == 0 && CountOf(h[i..j], Failed) >= n;
      CountAll(h[i..j]);
      forall x | i <= x < i + n ensures cycles[x][k] { assert h[x] == h[i..j][x - i]; }
      assert PresentFrom(cycles, k, i, n);
    }
    if InARow(cycles, k, n) {
      var i: nat :| PresentFrom(cycles, k, i, n);
      CountAll(h[i..i + n]);
    }
  }

  /** Whether n cycles in a row confirm a code. */
  ghost function Code(confirmed: bool, code: int): seq<int> { if confirmed then [code] else [] }

  /**
   * What a tester that reads confirmed codes is told after these rounds: a lost sensor counts at once, each of the
   * other faults after three monitor cycles in a row, whether or not soft resets came in between.
   */
  lemma ConfirmedFaults(rounds: seq<Round>)
    ensures var cycles := Cycles(rounds);
      ConfirmedCodes(CODES, ToldAll(rounds))
      == Code(InARow(cycles, 0, 1), 0xC10087) + Code(InARow(cycles, 1, 3), 0x050100)
         + Code(InARow(cycles, 2, 3), 0xC40081) + Code(InARow(cycles, 3, 3), 0x050096)
         + Code(InARow(cycles, 4, 3), 0x9A0011)
  {
    hide ToldAbout, Reports, Cycles, InARow, RunOfFailures, ConfirmedCodes;
    FaultConfirmed(rounds, 0, 1);
    FaultConfirmed(rounds, 1, 3);
    FaultConfirmed(rounds, 2, 3);
    FaultConfirmed(rounds, 3, 3);
    FaultConfirmed(rounds, 4, 3);
    ConfirmedFive(CODES, ToldAll(rounds));
  }

  lemma FaultConfirmed(rounds: seq<Round>, k: nat, n: nat)
    requires k < 5 && n >= 1
    ensures RunOfFailures(ToldAbout(rounds, k), n) <==> InARow(Cycles(rounds), k, n)
  {
    hide RunOfFailures, InARow;
    ResetsDoNotMatter(rounds, k, n);
    RunIsInARow(Cycles(rounds), k, n);
  }

  /** Whether a table entry's code is confirmed by a history. */
  ghost function Entry(c: Config, h: seq<Event>): seq<int> {
    Code(RunOfFailures(h, c.confirmThreshold), c.code % 0x100_0000)
  }

  lemma ConfirmedFive(table: seq<Config>, h: seq<seq<Event>>)
    requires |table| == |h| == 5 && forall i :: 0 <= i < 5 ==> table[i].confirmThreshold != 0
    ensures ConfirmedCodes(table, h) == Entry(table[0], h[0]) + Entry(table[1], h[1]) + Entry(table[2], h[2])
                                        + Entry(table[3], h[3]) + Entry(table[4], h[4])
  {
    hide ConfirmedCodes, Entry;
    Joined(table, h, 0, []);
    Joined(table, h, 1, Entry(table[0], h[0]));
    Joined(table, h, 2, Entry(table[0], h[0]) + Entry(table[1], h[1]));
    Joined(table, h, 3, Entry(table[0], h[0]) + Entry(table[1], h[1]) + Entry(table[2], h[2]));
    Joined(table, h, 4,
           Entry(table[0], h[0]) + Entry(table[1], h[1]) + Entry(table[2], h[2]) + Entry(table[3], h[3]));
  }

  lemma Joined(table: seq<Config>, h: seq<seq<Event>>, n: nat, before: seq<int>)
    requires n < |h| <= |table| && table[n].confirmThreshold != 0
    requires n > 0 ==> ConfirmedCodes(table, h[..n]) == before
    requires n == 0 ==> before == []
    ensures var now := if n == 0 then Entry(table[n], h[n]) else before + Entry(table[n], h[n]);
      ConfirmedCodes(table, h[..n + 1]) == now && (n + 1 == |h| ==> ConfirmedCodes(table, h) == now)
  {
    hide RunOfFailures;
    assert h[..n + 1][..n] == h[..n];
    if n + 1 == |h| { assert h[..n + 1] == h; }
  }

  // ---------------------------------------------------------------------------------------------
  // The same at the tester
  // ---------------------------------------------------------------------------------------------

  /** The rounds as moments of the timeline: a monitor cycle makes five reports, one for each code. */
  ghost function Moments(rounds: seq<Round>): seq<Moment> {
    if rounds == [] then []
    else
      var r := rounds[|rounds| - 1];
      Moments(rounds[..|rounds| - 1]) + match r
        case Cycle(f) =>
          [Reported(0, f[0]), Reported(1, f[1]), Reported(2, f[2]), Reported(3, f[3]), Reported(4, f[4])]
        case SoftReset => [CycleStarted]
  }

  lemma HistoriesMore(ms: seq<Moment>, m: Moment)
    ensures T.Histories(5, ms + [m]) == After(T.Histories(5, ms), m)
  {
    hide After;
    assert (ms + [m])[..|ms|] == ms;
  }

  lemma FiveReports(ms: seq<Moment>, f: Flags)
    ensures var five := [Reported(0, f[0]), Reported(1, f[1]), Reported(2, f[2]), Reported(3, f[3]), Reported(4, f[4])];
      ControlApp.Told(T.Histories(5, ms), T.Histories(5, ms + five), f, 5)
  {
    hide T.Histories;
    var a := ms + [Reported(0, f[0])];
    var b := a + [Reported(1, f[1])];
    var c := b + [Reported(2, f[2])];
    var d := c + [Reported(3, f[3])];
    HistoriesMore(ms, Reported(0, f[0]));
    HistoriesMore(a, Reported(1, f[1]));
    HistoriesMore(b, Reported(2, f[2]));
    HistoriesMore(c, Reported(3, f[3]));
    HistoriesMore(d, Reported(4, f[4]));
    assert d + [Reported(4, f[4])]
        == ms + [Reported(0, f[0]), Reported(1, f[1]), Reported(2, f[2]), Reported(3, f[3]), Reported(4, f[4])];
  }

  lemma {:induction false} MomentsTell(rounds: seq<Round>)
    ensures T.Histories(5, Moments(rounds)) == ToldAll(rounds)
    decreases |rounds|
  {
    hide T.Histories, ControlApp.Told, ToldAll, After;
    if rounds == [] { NothingTold(); }
    else {
      var g, r := rounds[..|rounds| - 1], rounds[|rounds| - 1];
      assert rounds == g + [r];
      MomentsTell(g);
      match r
      case Cycle(f) =>
        FiveReports(Moments(g), f);
        OneMoreCycle(g, f, T.Histories(5, Moments(rounds)));
      case SoftReset =>
        HistoriesMore(Moments(g), CycleStarted);
        OneMoreReset(g);
    }
  }

  lemma NothingTold()
    ensures T.Histories(5, []) == ToldAll([])
  {
    var h, told := T.Histories(5, []), ToldAll([]);
    forall k: nat | k < 5 ensures ToldAbout([], k) == [] {}
    assert forall k :: 0 <= k < 5 ==> told[k] == ToldAbout([], k);
    assert forall k :: 0 <= k < 5 ==> h[k] == [] && told[k] == [];
  }

  /** What lies before a clear does not count. */
  lemma HistoriesSince(before: seq<Moment>, ms: seq<Moment>)
    requires before == [] || before[|before| - 1] == Cleared
    ensures T.Histories(5, before + ms) == T.Histories(5, ms)
  {
    hide T.Histories;
    if before == [] { assert before + ms == ms; }
    else {
      T.SinceClear(5, before + ms, |before| - 1);
      assert (before + ms)[|before|..] == ms;
    }
  }

  /**
   * From the monitor to the tester: whenever a client hears which codes are confirmed, and the server copied them
   * after whole rounds of the monitor since the beginning or the last clear, it hears exactly the codes whose faults
   * were present in one, or three, of the monitor's cycles in a row.
   */
  lemma TesterSeesFaults(d: T.Diary, ecu: T.Ecu, before: seq<Moment>, rounds: seq<Round>)
    requires T.Reachable(d, ecu) && T.Told(d, [0x19, 2, 0x08]) && ecu.table == CODES
    requires before == [] || before[|before| - 1] == Cleared
    requires d.copied != [] && d.copied[|d.copied| - 1] <= |d.moments| && T.Past(d) == before + Moments(rounds)
    ensures UdsExchange.Heard(d.conv)
    ensures var r := UdsClient.DtcResult(UdsClient.Final(0x19, Some(UdsExchange.Response(d.conv))));
      var cycles := Cycles(rounds);
      r.Success? && Codes(r.value)
        == Code(InARow(cycles, 0, 1), 0xC10087) + Code(InARow(cycles, 1, 3), 0x050100)
           + Code(InARow(cycles, 2, 3), 0xC40081) + Code(InARow(cycles, 3, 3), 0x050096)
           + Code(InARow(cycles, 4, 3), 0x9A0011)
  {
    hide T.Reachable, T.Told, UdsExchange.Heard, UdsClient.DtcResult, UdsClient.Final, T.Histories, ConfirmedCodes,
      ToldAll, Moments, InARow, Cycles, Codes;
    T.ReadConfirmed(d, ecu);
    HistoriesSince(before, Moments(rounds));
    MomentsTell(rounds);
    ConfirmedFaults(rounds);
  }
}
