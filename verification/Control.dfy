/**
 * control_ecu/CM4/Core/App/control_app.c: the speed receive path and the monitor's safe-state decision.
 *
 * A run interleaves the passing of time, received speed frames, soft resets and the two halves of a monitor
 * cycle: copying the view under the mutex, and deciding from the copy. The log of judged frames is ghost
 * history; `RunInv` says what the output is in terms of the log alone.
 */
module Control {
  import opened Words
  import opened Crc
  import opened CrcErrors
  import opened CrcBursts
  import opened E2e

  const SPEED_MAX_X10: int := 2500
  const PWM_MAX: int := 1000
  const SPEED_TIMEOUT_MS: int := 100
  const STARTUP_GRACE_MS: int := 500
  const E2E_HEAL_FRAMES: int := 10
  const MONITOR_PERIOD_MS: int := 10
  const STATUS_ADC_ERROR: bv8 := 0x02

  /** SensorView_t without its statistics counters. */
  datatype View = View(speedX10: u16, adcRaw: u16, sensorStatus: bv8, lastValidTick: u32, received: bool,
                       e2eError: bool, goodStreak: u8)

  const BLANK: View := View(0, 0, 0, 0, false, false, 0)

  function Word(hi: bv8, lo: bv8): u16 { hi as u8 * 0x100 + lo as u8 }

  /** HandleSpeedFrame, once the end-to-end check has judged the frame. */
  function Handle(v: View, status: Status, frame: seq<bv8>, tick: u32): View
    requires |frame| == FRAME_LEN
  {
    if IsValid(status) then
      var w := v.(speedX10 := Word(frame[0], frame[1]), adcRaw := Word(frame[2], frame[3]), sensorStatus := frame[4],
                  lastValidTick := tick, received := true);
      if v.goodStreak < E2E_HEAL_FRAMES then w.(goodStreak := v.goodStreak + 1) else w.(e2eError := false)
    else
      v.(e2eError := true, goodStreak := 0)
  }

  datatype Faults = Faults(timeout: bool, range: bool, e2e: bool, adc: bool, local: bool)

  function FaultsOf(v: View, tick: u32, startTick: u32, inject: bool): Faults {
    var age := if v.received then Elapsed(tick, v.lastValidTick) else Elapsed(tick, startTick);
    Faults(age > SPEED_TIMEOUT_MS && (v.received || Elapsed(tick, startTick) > STARTUP_GRACE_MS),
           v.received && v.speedX10 > SPEED_MAX_X10,
           v.e2eError,
           v.sensorStatus & STATUS_ADC_ERROR != 0,
           inject)
  }

  function DutyOf(v: View, f: Faults): u32 {
    if f.timeout || f.range || f.e2e || f.local then 0 else v.speedX10 * PWM_MAX / SPEED_MAX_X10
  }

  // ---------------------------------------------------------------------------------------------
  // What the frames seen so far say, without any view
  // ---------------------------------------------------------------------------------------------

  type SpeedFrame = f: seq<bv8> | |f| == 8 witness [0, 0, 0, 0, 0, 0, 0, 0]

  /** One judged speed frame: when it was handled, the verdict, and the bytes as they came. */
  datatype Seen = Seen(at: nat, valid: bool, frame: SpeedFrame)

  /** Two bytes of a frame as a number, high byte first. */
  function Number(f: SpeedFrame, at: nat): int
    requires at < 7
  {
    256 * f[at] as int + f[at + 1] as int
  }

  function LastValid(log: seq<Seen>): Option<Seen> {
    if log == [] then None
    else if log[|log| - 1].valid then Some(log[|log| - 1])
    else LastValid(log[..|log| - 1])
  }

  /** The valid frames since the last invalid one. */
  function GoodSince(log: seq<Seen>): nat {
    if log == [] || !log[|log| - 1].valid then 0 else GoodSince(log[..|log| - 1]) + 1
  }

  ghost predicate InvalidSeen(log: seq<Seen>) { exists i :: 0 <= i < |log| && !log[i].valid }

  /** An invalid frame was received, and at most ten valid ones after the last such frame. */
  ghost predicate Distrusted(log: seq<Seen>) { InvalidSeen(log) && GoodSince(log) <= 10 }

  /** The output the frames of `log` justify at time `at`. */
  ghost function Justified(log: seq<Seen>, at: int, inject: bool): int {
    var x := LastValid(log);
    if x.Some? && (at - x.value.at) % TWO32 <= 100 && Number(x.value.frame, 0) <= 2500 && !Distrusted(log) && !inject
    then Number(x.value.frame, 0) * 1000 / 2500
    else 0
  }

  ghost predicate Explains(v: View, log: seq<Seen>) {
    && v.received == LastValid(log).Some?
    && (v.received ==>
         var x := LastValid(log).value;
         v.lastValidTick == x.at % TWO32 && v.speedX10 == Number(x.frame, 0) && v.adcRaw == Number(x.frame, 2)
         && v.sensorStatus == x.frame[4])
    && (!v.received ==> v.speedX10 == 0 && v.adcRaw == 0 && v.sensorStatus == 0)
    && v.e2eError == Distrusted(log)
    && v.goodStreak == (if GoodSince(log) < 10 then GoodSince(log) else 10)
  }

  lemma LogGrows(log: seq<Seen>, x: Seen)
    ensures LastValid(log + [x]) == (if x.valid then Some(x) else LastValid(log))
    ensures GoodSince(log + [x]) == (if x.valid then GoodSince(log) + 1 else 0)
    ensures InvalidSeen(log + [x]) == (!x.valid || InvalidSeen(log))
  {
    assert (log + [x])[..|log|] == log;
    if !x.valid { assert !(log + [x])[|log|].valid; }
    if InvalidSeen(log) {
      var i :| 0 <= i < |log| && !log[i].valid;
      assert !(log + [x])[i].valid;
    }
  }

  /** The verdicts after which the data of a frame is used. */
  function Usable(status: Status): bool { status in {Ok, OkSomeLost, Initial} }

  lemma WordIs(f: SpeedFrame, at: nat)
    requires at < 7
    ensures Word(f[at], f[at + 1]) == Number(f, at)
  {}

  /**
   * A used frame gives speed (bytes 0 and 1) and ADC value (bytes 2 and 3), high byte first, and the status (byte 4);
   * the eleventh one in a row ends an end-to-end error. Any other frame is discarded and starts such an error.
   */
  ghost predicate Takes(v: View, w: View, status: Status, frame: SpeedFrame, tick: u32) {
    if status in {Ok, OkSomeLost, Initial} then
      && w.speedX10 == 256 * frame[0] as int + frame[1] as int
      && w.adcRaw == 256 * frame[2] as int + frame[3] as int
      && w.sensorStatus == frame[4] && w.lastValidTick == tick && w.received
      && w.goodStreak == (if v.goodStreak < 10 then v.goodStreak + 1 else v.goodStreak)
      && w.e2eError == (v.e2eError && v.goodStreak < 10)
    else w == v.(e2eError := true, goodStreak := 0)
  }

  lemma HandleTakes(v: View, status: Status, frame: SpeedFrame, tick: u32)
    ensures Takes(v, Handle(v, status, frame, tick), status, frame, tick)
  {
    hide Word;
    WordIs(frame, 0);
    WordIs(frame, 2);
  }

  lemma HandleExplained(v: View, log: seq<Seen>, status: Status, frame: SpeedFrame, at: nat)
    requires Explains(v, log)
    ensures Explains(Handle(v, status, frame, at % TWO32), log + [Seen(at, Usable(status), frame)])
  {
    hide LastValid, GoodSince, InvalidSeen, Word, Number;
    WordIs(frame, 0);
    WordIs(frame, 2);
    LogGrows(log, Seen(at, Usable(status), frame));
  }

  lemma ElapsedIs(at: nat, x: nat)
    ensures Elapsed(at % TWO32, x % TWO32) == (at - x) % TWO32
  {}

  lemma DutyExplained(v: View, log: seq<Seen>, at: nat, start: nat, inject: bool)
    requires Explains(v, log)
    ensures DutyOf(v, FaultsOf(v, at % TWO32, start % TWO32, inject)) == Justified(log, at, inject)
  {
    if v.received { ElapsedIs(at, LastValid(log).value.at); }
    hide LastValid, GoodSince, InvalidSeen, Elapsed;
  }

  /** The faults reported to the trouble-code manager, in terms of the log. */
  lemma FaultsExplained(v: View, log: seq<Seen>, at: nat, start: nat, inject: bool)
    requires Explains(v, log)
    ensures var f := FaultsOf(v, at % TWO32, start % TWO32, inject);
      && (f.timeout <==> if LastValid(log).Some? then (at - LastValid(log).value.at) % TWO32 > 100
                         else (at - start) % TWO32 > 500)
      && (f.range <==> LastValid(log).Some? && Number(LastValid(log).value.frame, 0) > 2500)
      && (f.e2e <==> Distrusted(log))
      && (f.adc <==> LastValid(log).Some? && LastValid(log).value.frame[4] & 0x02 != 0)
      && (f.local <==> inject)
  {
    if v.received { ElapsedIs(at, LastValid(log).value.at); }
    ElapsedIs(at, start);
    hide LastValid, GoodSince, InvalidSeen, Elapsed;
  }

  // ---------------------------------------------------------------------------------------------
  // Runs
  // ---------------------------------------------------------------------------------------------

  /**
   * `copy` is the monitor's local view, taken when `copied` frames had been judged; `duty` was decided at
   * `decided` from the first `basis` frames.
   */
  datatype System = System(now: nat, start: nat, e2e: Rx, view: View, copy: View, duty: int, log: seq<Seen>,
                           copied: nat, basis: nat, decided: nat, injected: bool)

  datatype Action =
    | Pass(ms: nat)
    | Receive(frame: seq<bv8>, dlc: u8)
    | SoftReset
    | Copy
    | Decide(inject: bool)

  ghost function Boot(start: nat): System {
    System(start, start, Rx(0, false), BLANK, BLANK, 0, [], 0, 0, start, false)
  }

  ghost function Do(s: System, a: Action): System {
    match a
    case Pass(ms) => s.(now := s.now + ms)
    case Receive(frame, dlc) =>
      if |frame| != FRAME_LEN then s
      else
        var (e2e, status) := CheckStep(s.e2e, frame, dlc);
        s.(e2e := e2e, view := Handle(s.view, status, frame, s.now % TWO32),
           log := s.log + [Seen(s.now, Usable(status), frame)])
    case SoftReset => s.(e2e := Rx(0, false))
    case Copy => s.(copy := s.view, copied := |s.log|)
    case Decide(inject) =>
      s.(duty := DutyOf(s.copy, FaultsOf(s.copy, s.now % TWO32, s.start % TWO32, inject)),
         basis := s.copied, decided := s.now, injected := inject)
  }

  ghost function Run(start: nat, acts: seq<Action>): System {
    if acts == [] then Boot(start) else Do(Run(start, acts[..|acts| - 1]), acts[|acts| - 1])
  }

  ghost predicate Inv(s: System) {
    && s.copied <= |s.log| && s.basis <= |s.log| && s.decided <= s.now
    && (forall i :: 0 <= i < |s.log| ==> s.log[i].at <= s.now)
    && Explains(s.view, s.log) && Explains(s.copy, s.log[..s.copied])
    && s.duty == Justified(s.log[..s.basis], s.decided, s.injected)
  }

  lemma BootInv(start: nat)
    ensures Inv(Boot(start))
  {}

  lemma ReceiveInv(s: System, frame: seq<bv8>, dlc: u8)
    requires Inv(s) && |frame| == FRAME_LEN
    ensures Inv(Do(s, Receive(frame, dlc)))
  {
    var status := CheckStep(s.e2e, frame, dlc).1;
    HandleExplained(s.view, s.log, status, frame, s.now);
    hide Explains, Justified, CheckStep, Handle, Word;
    var t := Do(s, Receive(frame, dlc));
    assert t.log[..s.copied] == s.log[..s.copied] && t.log[..s.basis] == s.log[..s.basis];
  }

  lemma StepInv(s: System, a: Action)
    requires Inv(s)
    ensures Inv(Do(s, a))
  {
    if a.Receive? && |a.frame| == FRAME_LEN { ReceiveInv(s, a.frame, a.dlc); }
    else if a.Decide? { DutyExplained(s.copy, s.log[..s.copied], s.now, s.start, a.inject); }
    hide Explains, Justified, CheckStep, Handle, Word, DutyOf, FaultsOf;
    assert s.log[..|s.log|] == s.log;
  }

  /** In every reachable state the output is exactly what the judged frames justify. */
  lemma {:induction false} RunInv(start: nat, acts: seq<Action>)
    ensures Inv(Run(start, acts))
    decreases |acts|
  {
    hide Inv, Do;
    if acts == [] { BootInv(start); }
    else {
      RunInv(start, acts[..|acts| - 1]);
      StepInv(Run(start, acts[..|acts| - 1]), acts[|acts| - 1]);
    }
  }

  /**
   * The actuator moves only on fresh, plausible and trusted data: a positive duty is the scaled speed of a valid
   * frame at most 100 ms old (modulo the 32-bit tick), within range, and unless every frame was valid, at least
   * eleven valid frames have followed the last invalid one.
   */
  lemma DriveIsJustified(start: nat, acts: seq<Action>)
    ensures var s := Run(start, acts);
      s.duty > 0 ==>
        && s.basis <= |s.log|
        && var seen := s.log[..s.basis];
        && LastValid(seen).Some?
        && var x := LastValid(seen).value;
        && var speed := 256 * x.frame[0] as int + x.frame[1] as int;
        && (s.decided - x.at) % TWO32 <= 100 && speed <= 2500
        && s.duty == speed * 1000 / 2500 <= 1000
        && (InvalidSeen(seen) ==> GoodSince(seen) >= 11) && !s.injected
  {
    RunInv(start, acts);
    hide Run, LastValid, GoodSince, InvalidSeen, Explains;
  }

  /**
   * The comment in the source promises healing after 10 good frames; the code needs one more. With n valid frames
   * after an invalid one the error is still there exactly when n is at most 10.
   */
  lemma {:induction false} HealsOnTheEleventh(log: seq<Seen>, x: Seen, good: seq<Seen>)
    requires !x.valid && forall i :: 0 <= i < |good| ==> good[i].valid
    ensures InvalidSeen(log + [x] + good) && GoodSince(log + [x] + good) == |good|
    ensures Distrusted(log + [x] + good) <==> |good| <= 10
    decreases |good|
  {
    if good == [] {
      assert log + [x] + good == log + [x];
      LogGrows(log, x);
    } else {
      var n := |good| - 1;
      HealsOnTheEleventh(log, x, good[..n]);
      assert log + [x] + good == (log + [x] + good[..n]) + [good[n]];
      LogGrows(log + [x] + good[..n], good[n]);
    }
  }

  /** The last valid frame of a log is one of its frames. */
  lemma {:induction false} LastValidIsThere(log: seq<Seen>)
    requires LastValid(log).Some?
    ensures exists i :: 0 <= i < |log| && log[i] == LastValid(log).value && log[i].valid
    decreases |log|
  {
    var n := |log| - 1;
    if !log[n].valid {
      LastValidIsThere(log[..n]);
      var i :| 0 <= i < n && log[..n][i] == LastValid(log[..n]).value && log[..n][i].valid;
      assert log[i] == LastValid(log).value;
    }
  }

  /** With a decision in every 10 ms, the output is off no later than 110 ms after the last valid frame. */
  lemma OffInTime(start: nat, acts: seq<Action>)
    requires var s := Run(start, acts);
      && s.now - s.decided < 10
      && forall i :: 0 <= i < |s.log| && s.log[i].valid ==> 110 <= s.now - s.log[i].at < TWO32
    ensures Run(start, acts).duty == 0
  {
    var s := Run(start, acts);
    RunInv(start, acts);
    hide Run, Explains;
    var seen := s.log[..s.basis];
    if LastValid(seen).Some? {
      LastValidIsThere(seen);
      var i :| 0 <= i < |seen| && seen[i] == LastValid(seen).value && seen[i].valid;
      assert s.log[i] == seen[i];
      hide LastValid, GoodSince, InvalidSeen;
      var age := s.decided - s.log[i].at;
      assert age % TWO32 > 100;
    }
  }

  // ---------------------------------------------------------------------------------------------
  // From the sensor's reading to the output
  // ---------------------------------------------------------------------------------------------

  /** What the Sensor ECU measured, and the running number of the frame it is sent in. */
  datatype Reading = Reading(speed: u16, adc: u16, status: bv8, n: nat)

  /** The speed frame of sensor_app.c: two words with the high byte first, the status and a zero byte, protected. */
  ghost predicate Sends(r: Reading, f: SpeedFrame) {
    && f[0] as int == r.speed / 256 && f[1] as int == r.speed % 256
    && f[2] as int == r.adc / 256 && f[3] as int == r.adc % 256
    && f[4] == r.status && f[5] == 0
    && f == Protected(f[..6], r.n)
  }

  lemma SentNumbers(r: Reading, f: SpeedFrame)
    requires Sends(r, f)
    ensures Number(f, 0) == r.speed && Number(f, 2) == r.adc && f[4] == r.status
  {
    hide Protected;
  }

  /** No damage, a burst of up to eight bits, or two flipped bits. */
  ghost predicate Harm(e: SpeedFrame) {
    || (forall i :: 0 <= i < 8 ==> e[i] == 0) || Burst(BitsOf(e)) || exists i, j :: TwoBits(BitsOf(e), i, j)
  }

  /** A reading that is accepted over such a bus is in the view as it was measured; otherwise the data stays. */
  lemma ReadingArrives(v: View, s: Rx, r: Reading, f: SpeedFrame, e: SpeedFrame, dlc: u8, tick: u32)
    requires Sends(r, f) && Harm(e)
    ensures var status := CheckStep(s, Damage(f, e), dlc).1;
      var w := Handle(v, status, Damage(f, e), tick);
      if Usable(status)
      then Damage(f, e) == f && w.received && w.lastValidTick == tick
           && w.speedX10 == r.speed && w.adcRaw == r.adc && w.sensorStatus == r.status
      else w == v.(e2eError := true, goodStreak := 0)
  {
    hide Harm, Damage, CheckStep, Word, Number, Sends;
    Accepted(s, r, f, e, dlc);
    SentNumbers(r, f);
    WordIs(f, 0);
    WordIs(f, 2);
  }

  lemma Accepted(s: Rx, r: Reading, f: SpeedFrame, e: SpeedFrame, dlc: u8)
    requires Sends(r, f) && Harm(e)
    ensures Usable(CheckStep(s, Damage(f, e), dlc).1) ==> Damage(f, e) == f
  {
    hide Burst, BitsOf, TwoBits, Protected, Damage, CheckStep;
    ValidCarriesPayload(s, f[..6], r.n, e, dlc);
  }

  /** A frame as it comes from the Sensor ECU over such a bus. */
  ghost predicate FromSensor(frame: seq<bv8>) {
    exists r: Reading, f: SpeedFrame, e: SpeedFrame :: Sends(r, f) && Harm(e) && frame == Damage(f, e)
  }

  ghost predicate Measured(x: Seen) { x.valid ==> exists r: Reading :: Sends(r, x.frame) }

  lemma MeasuredStep(s: System, a: Action)
    requires a.Receive? && |a.frame| == 8 ==> FromSensor(a.frame)
    requires forall i :: 0 <= i < |s.log| ==> Measured(s.log[i])
    ensures forall i :: 0 <= i < |Do(s, a).log| ==> Measured(Do(s, a).log[i])
  {
    hide Handle, FaultsOf, DutyOf, CheckStep, Sends, Harm, Damage;
    if a.Receive? && |a.frame| == 8 {
      var r: Reading, f: SpeedFrame, e: SpeedFrame :| Sends(r, f) && Harm(e) && a.frame == Damage(f, e);
      Accepted(s.e2e, r, f, e, a.dlc);
    }
  }

  lemma {:induction false} AllMeasured(start: nat, acts: seq<Action>)
    requires forall i :: 0 <= i < |acts| && acts[i].Receive? && |acts[i].frame| == 8 ==> FromSensor(acts[i].frame)
    ensures forall i :: 0 <= i < |Run(start, acts).log| ==> Measured(Run(start, acts).log[i])
    decreases |acts|
  {
    hide Do, FromSensor, Measured;
    if acts != [] {
      AllMeasured(start, acts[..|acts| - 1]);
      MeasuredStep(Run(start, acts[..|acts| - 1]), acts[|acts| - 1]);
    }
  }

  /**
   * If all frames come from the sensor, over a bus that may harm each of them, a positive duty is the scaled speed of
   * one of its readings, received at most 100 ms before the decision (modulo the 32-bit tick).
   */
  lemma DriveFollowsSensor(start: nat, acts: seq<Action>)
    requires forall i :: 0 <= i < |acts| && acts[i].Receive? && |acts[i].frame| == 8 ==> FromSensor(acts[i].frame)
    ensures var s := Run(start, acts);
      s.duty > 0 ==> exists x: Seen, r: Reading :: x in s.log && Follows(s.duty, s.decided, x, r)
  {
    hide Run, Sends, FromSensor, InvalidSeen, GoodSince, LastValid, Measured;
    var s := Run(start, acts);
    if s.duty > 0 {
      DriveIsJustified(start, acts);
      AllMeasured(start, acts);
      var seen := s.log[..s.basis];
      LastValidIsThere(seen);
      var i :| 0 <= i < |seen| && seen[i] == LastValid(seen).value && seen[i].valid;
      assert s.log[i] == seen[i];
      var r := ReadingOf(s.log[i]);
      SentNumbers(r, s.log[i].frame);
      assert Follows(s.duty, s.decided, s.log[i], r);
    }
  }

  lemma ReadingOf(x: Seen) returns (r: Reading)
    requires x.valid && Measured(x)
    ensures Sends(r, x.frame)
  {
    r :| Sends(r, x.frame);
  }

  /** The output is the scaled speed of this reading, which came in this frame not long before the decision. */
  ghost predicate Follows(duty: int, decided: int, x: Seen, r: Reading) {
    Sends(r, x.frame) && r.speed <= 2500 && (decided - x.at) % TWO32 <= 100 && duty == r.speed * 1000 / 2500
  }
}
