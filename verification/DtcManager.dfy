/**
 * common/dtc/dtc_manager.c: the table of trouble codes, an array of entries changed in place.
 *
 * Each entry is tied to the events reported for its code since the last clear, so that `Dtc.StatusMeaning`
 * applies to every status byte in the table at every moment.
 */
module DtcManager {
  import opened Words
  import opened Dtc

  /** A record as UDS service 0x19 02 reports it: a 24-bit code, high byte first, and the supported status bits. */
  function Record(code: u32, status: bv8): (r: seq<u8>)
    ensures |r| == 4
  {
    [code / 0x10000 % 0x100, code / 0x100 % 0x100, code % 0x100, (status & AVAILABILITY) as u8]
  }

  predicate Matches(e: Entry, mask: bv8) { e.status & mask & AVAILABILITY != 0 }

  /** The mask asks for one of the seven supported bits that the status byte has. */
  predicate SharesBit(status: bv8, mask: bv8) {
    || (Has(status, 0x01) && Has(mask, 0x01)) || (Has(status, 0x02) && Has(mask, 0x02))
    || (Has(status, 0x04) && Has(mask, 0x04)) || (Has(status, 0x08) && Has(mask, 0x08))
    || (Has(status, 0x10) && Has(mask, 0x10)) || (Has(status, 0x20) && Has(mask, 0x20))
    || (Has(status, 0x40) && Has(mask, 0x40))
  }

  /** A code matches if at least one supported bit is set in its status and in the mask; bit 7 never counts. */
  lemma MatchesAnyBit(e: Entry, mask: bv8)
    ensures Matches(e, mask) <==> SharesBit(e.status, mask)
  {}

  /** The number of entries whose status matches the mask. */
  function MatchCount(es: seq<Entry>, mask: bv8): (n: nat)
    ensures n <= |es|
  {
    if es == [] then 0
    else MatchCount(es[..|es| - 1], mask) + (if Matches(es[|es| - 1], mask) then 1 else 0)
  }

  /** The records of all matching entries, in table order. */
  function MatchRecords(table: seq<Config>, es: seq<Entry>, mask: bv8): (r: seq<u8>)
    requires |es| <= |table|
    ensures |r| == 4 * MatchCount(es, mask)
  {
    if es == [] then []
    else
      var n := |es| - 1;
      MatchRecords(table, es[..n], mask) + (if Matches(es[n], mask) then Record(table[n].code, es[n].status) else [])
  }

  /** `data` was written into a buffer from `at` on, and nothing else changed. */
  ghost predicate Written(was: seq<u8>, now: seq<u8>, at: nat, data: seq<u8>) {
    at + |data| <= |was| && now == was[..at] + data + was[at + |data|..]
  }

  /** DtcMgr_ReportResult, DtcMgr_StartOperationCycle and DtcMgr_ClearAll. */
  datatype Moment = Reported(index: u8, failed: bool) | CycleStarted | Cleared

  /** What a moment adds to what happened to each code since the last clear. */
  ghost function After(h: seq<seq<Event>>, m: Moment): (r: seq<seq<Event>>)
    ensures |r| == |h|
  {
    match m
    case Reported(index, failed) =>
      if index < |h| then h[index := h[index] + [if failed then Failed else Passed]] else h
    case CycleStarted => seq(|h|, k requires 0 <= k < |h| => h[k] + [CycleStart])
    case Cleared => seq(|h|, _ => [])
  }

  class Manager {
    var table: seq<Config>
    const entries: array<Entry>

    /** What happened to each code since the last clear. */
    ghost var history: seq<seq<Event>>

    ghost predicate Valid()
      reads this, entries
    {
      && entries.Length == MAX_ENTRIES
      && |table| <= MAX_ENTRIES && |history| == |table|
      && forall i :: 0 <= i < |table| ==> entries[i] == Replay(Threshold(table[i]), history[i])
    }

    ghost function Entries(): seq<Entry>
      reads this`table, entries
      requires |table| <= entries.Length
    {
      entries[..|table|]
    }

    /** Before DtcMgr_Init the table is empty. */
    constructor ()
      ensures Valid() && table == [] && fresh(entries)
    {
      table := [];
      history := [];
      entries := new Entry[MAX_ENTRIES](_ => Entry(0, 0));
    }

    /** ResetAll */
    method ResetAll()
      requires entries.Length == MAX_ENTRIES && |table| <= MAX_ENTRIES
      modifies entries, this`history
      ensures Valid() && history == seq(|table|, _ => [])
    {
      var i := 0;
      while i < |table|
        invariant 0 <= i <= |table|
        invariant forall k :: 0 <= k < i ==> entries[k] == Initial()
      {
        entries[i] := Entry(STATUS_INITIAL, 0);
        i := i + 1;
      }
      history := seq(|table|, _ => []);
    }

    /** DtcMgr_Init: an empty or too long table is refused and changes nothing. */
    method Init(t: seq<Config>) returns (ok: bool)
      requires Valid()
      modifies this`table, this`history, entries
      ensures Valid() && (ok <==> 1 <= |t| <= 16)
      ensures ok ==> table == t && history == seq(|t|, _ => [])
      ensures !ok ==> table == old(table) && history == old(history) && entries[..] == old(entries[..])
    {
      if |t| == 0 || |t| > MAX_ENTRIES { return false; }
      table := t;
      ResetAll();
      return true;
    }

    /** The body of DtcMgr_ReportResult under its lock. */
    method Update(index: u8, failed: bool)
      requires Valid() && index < |table|
      modifies entries
      ensures entries[..] == old(entries[..])[index := Report(old(entries[index]), Threshold(table[index]), failed)]
    {
      hide Replay;
      var threshold := Threshold(table[index]);
      var e := entries[index];
      e := e.(status := e.status & !(TNCTOC | TNCSLC));
      if failed {
        e := e.(status := e.status | (TF | TFTOC | TFSLC | PDTC));
        if e.failCount < 0xFF { e := e.(failCount := e.failCount + 1); }
        if e.failCount >= threshold { e := e.(status := e.status | CDTC); }
      } else {
        e := e.(status := e.status & !TF);
        e := e.(failCount := 0);
      }
      entries[index] := e;
    }

    /** DtcMgr_ReportResult: an index outside the table is ignored. */
    method ReportResult(index: u8, failed: bool)
      requires Valid()
      modifies entries, this`history
      ensures Valid()
      ensures index >= |table| ==> history == old(history) && entries[..] == old(entries[..])
      ensures history == After(old(history), Reported(index, failed))
      ensures index < |table| ==>
        history == old(history)[index := old(history)[index] + [if failed then Failed else Passed]]
    {
      hide Report, Replay;
      if index >= |table| { return; }
      Update(index, failed);
      ReplayAppend(Threshold(table[index]), history[index], if failed then Failed else Passed);
      history := history[index := history[index] + [if failed then Failed else Passed]];
      assert forall k :: 0 <= k < |table| ==> entries[k] == entries[..][k];
    }

    /** DtcMgr_StartOperationCycle */
    method StartOperationCycle()
      requires Valid()
      modifies entries, this`history
      ensures Valid() && history == After(old(history), CycleStarted) && |history| == |old(history)|
      ensures forall k :: 0 <= k < |history| ==> history[k] == old(history)[k] + [CycleStart]
    {
      hide Replay;
      var i := 0;
      while i < |table|
        invariant 0 <= i <= |table| && history == old(history)
        invariant forall k :: i <= k < |table| ==> entries[k] == old(entries[k])
        invariant forall k :: 0 <= k < i ==> entries[k] == NextCycle(old(entries[k]))
      {
        var e := entries[i];
        if e.status & TFTOC == 0 { e := e.(status := e.status & !PDTC); }
        e := e.(status := e.status & !TFTOC);
        e := e.(status := e.status | TNCTOC);
        entries[i] := e;
        i := i + 1;
      }
      ghost var h := history;
      history := seq(|h|, k requires 0 <= k < |h| => h[k] + [CycleStart]);
      forall k | 0 <= k < |table| ensures entries[k] == Replay(Threshold(table[k]), history[k]) {
        ReplayAppend(Threshold(table[k]), h[k], CycleStart);
      }
    }

    /** DtcMgr_ClearAll */
    method ClearAll()
      requires Valid()
      modifies entries, this`history
      ensures Valid() && history == After(old(history), Cleared) == seq(|table|, _ => [])
    {
      ResetAll();
    }

    /** DtcMgr_GetStatus */
    method GetStatus(index: u8) returns (s: bv8)
      requires Valid()
      ensures s == if index < |table| then entries[index].status else 0
    {
      s := 0;
      if index < |table| { s := entries[index].status; }
    }

    /**
     * At every moment every status byte in the table means what the events since the last clear say; a code is
     * confirmed after as many failures in a row as its table entry asks for, where 0 stands for 1.
     */
    lemma TableMeaning(index: nat)
      requires Valid() && index < |table|
      ensures var c := table[index].confirmThreshold;
        Meaning(entries[index], history[index], if c == 0 then 1 else c)
    {
      StatusMeaning(Threshold(table[index]), history[index]);
    }

    /** The confirmed bit: some stretch without a passed report held as many failures as the table entry asks for. */
    lemma ConfirmedMeaning(index: nat)
      requires Valid() && index < |table|
      ensures var c := table[index].confirmThreshold;
        Has(entries[index].status, 0x08) <==> RunOfFailures(history[index], if c == 0 then 1 else c)
    {
      TableMeaning(index);
    }

    /** A code that has only failed since the last clear, k times, is confirmed exactly if k reaches its threshold. */
    lemma ConfirmedAfterFailures(index: nat, k: nat)
      requires Valid() && index < |table| && history[index] == seq(k, _ => Failed)
      ensures Has(entries[index].status, 0x08) <==> k >= 1 && k >= table[index].confirmThreshold
    {
      ConfirmedMeaning(index);
      FailuresInARow(k, Threshold(table[index]));
    }

    /** DtcMgr_CountByStatusMask */
    method CountByStatusMask(mask: bv8) returns (n: u8)
      requires Valid()
      ensures n == MatchCount(Entries(), mask) <= |table|
    {
      hide Replay;
      n := 0;
      var i := 0;
      while i < |table|
        invariant 0 <= i <= |table| && n == MatchCount(entries[..i], mask) <= i
      {
        assert entries[..i + 1][..i] == entries[..i];
        if entries[i].status & mask & AVAILABILITY != 0 { n := n + 1; }
        i := i + 1;
      }
    }

    /** DtcMgr_GetByStatusMask: the first `maxRecords` matching records, written from `at` on. */
    method GetByStatusMask(mask: bv8, out: array<u8>, at: nat, maxRecords: u8) returns (n: u8)
      requires Valid() && at + 4 * maxRecords <= out.Length
      modifies out
      ensures n == (if MatchCount(Entries(), mask) < maxRecords then MatchCount(Entries(), mask) else maxRecords)
      ensures Written(old(out[..]), out[..], at, MatchRecords(table, Entries(), mask)[..4 * n])
    {
      hide Replay, MatchRecords, MatchCount, Record, Matches, Written;
      n := 0;
      var i := 0;
      ghost var was := out[..];
      MatchNone(table, Entries(), mask);
      WrittenNothing(was, at);
      while i < |table| && n < maxRecords
        invariant 0 <= i <= |table| && n == MatchCount(Entries()[..i], mask) <= maxRecords
        invariant Written(was, out[..], at, MatchRecords(table, Entries()[..i], mask))
      {
        MatchNext(table, Entries(), mask, i);
        if Matches(entries[i], mask) {
          ghost var mid := out[..];
          StoreRecord(out, at + 4 * n, table[i].code, entries[i].status);
          Splice(was, mid, out[..], at, MatchRecords(table, Entries()[..i], mask),
              Record(table[i].code, entries[i].status));
          n := n + 1;
        }
        i := i + 1;
      }
      MatchPrefix(table, Entries(), mask, i);
    }
  }

  lemma ReplayAppend(threshold: u8, h: seq<Event>, x: Event)
    ensures Replay(threshold, h + [x]) == Apply(Replay(threshold, h), threshold, x)
  {
    hide Apply;
    assert (h + [x])[..|h|] == h;
  }

  method StoreRecord(out: array<u8>, at: nat, code: u32, status: bv8)
    requires at + 4 <= out.Length
    modifies out
    ensures Written(old(out[..]), out[..], at, Record(code, status))
  {
    out[at] := code / 0x10000 % 0x100;
    out[at + 1] := code / 0x100 % 0x100;
    out[at + 2] := code % 0x100;
    out[at + 3] := (status & AVAILABILITY) as u8;
  }

  lemma WrittenNothing(was: seq<u8>, at: nat)
    requires at <= |was|
    ensures Written(was, was, at, [])
  {}

  lemma Splice(was: seq<u8>, mid: seq<u8>, now: seq<u8>, at: nat, done: seq<u8>, more: seq<u8>)
    requires at + |done| + |more| <= |was|
    requires Written(was, mid, at, done) && Written(mid, now, at + |done|, more)
    ensures Written(was, now, at, done + more)
  {
    var k := at + |done|;
    assert mid[..k] == was[..at] + done;
    assert mid[k + |more|..] == was[k..][|more|..];
  }

  lemma MatchNone(table: seq<Config>, es: seq<Entry>, mask: bv8)
    requires |es| <= |table|
    ensures MatchCount(es[..0], mask) == 0 && MatchRecords(table, es[..0], mask) == []
  {}

  lemma MatchNext(table: seq<Config>, es: seq<Entry>, mask: bv8, i: nat)
    requires i < |es| <= |table|
    ensures MatchCount(es[..i + 1], mask) == MatchCount(es[..i], mask) + (if Matches(es[i], mask) then 1 else 0)
    ensures MatchRecords(table, es[..i + 1], mask)
         == if Matches(es[i], mask) then MatchRecords(table, es[..i], mask) + Record(table[i].code, es[i].status)
            else MatchRecords(table, es[..i], mask)
  {
    assert es[..i + 1][..i] == es[..i];
  }

  /** The records of the first entries come first. */
  lemma {:induction false} MatchPrefix(table: seq<Config>, es: seq<Entry>, mask: bv8, i: nat)
    requires i <= |es| <= |table|
    ensures MatchCount(es[..i], mask) <= MatchCount(es, mask)
    ensures MatchRecords(table, es[..i], mask) == MatchRecords(table, es, mask)[..4 * MatchCount(es[..i], mask)]
    ensures es[..|es|] == es
    decreases |es|
  {
    assert es[..|es|] == es;
    if i < |es| {
      MatchPrefix(table, es[..|es| - 1], mask, i);
      assert es[..|es| - 1][..i] == es[..i];
    }
  }
}
