/**
 * control_ecu/CM4/Core/App/control_app.c: receive path and monitor as methods over the shared view, the
 * fault flags and the trouble-code manager. They refine the steps of `Control`.
 */
module ControlApp {
  import opened Words
  import opened Crc
  import opened CrcErrors
  import opened E2e
  import opened Control
  import opened Dtc
  import opened DtcManager

  const FAULT_COUNT: int := 5

  function Flags(f: Faults): seq<bool> { [f.timeout, f.range, f.e2e, f.adc, f.local] }

  /**
   * The five fault flags in the order of their trouble codes: speed timeout, speed out of range, end-to-end error,
   * sensor's ADC error, injected output fault.
   */
  ghost predicate Detected(v: View, tick: u32, start: u32, inject: bool, flags: seq<bool>) {
    && |flags| == 5
    && flags[0] == (if v.received then Elapsed(tick, v.lastValidTick) > 100 else Elapsed(tick, start) > 500)
    && flags[1] == (v.received && v.speedX10 > 2500)
    && flags[2] == v.e2eError
    && flags[3] == (v.sensorStatus & 0x02 != 0)
    && flags[4] == inject
  }

  /** The decision function and the numbers above agree. */
  lemma FlagsAreDetected(v: View, tick: u32, start: u32, inject: bool)
    ensures Detected(v, tick, start, inject, Flags(FaultsOf(v, tick, start, inject)))
    ensures var flags := Flags(FaultsOf(v, tick, start, inject));
      DutyOf(v, FaultsOf(v, tick, start, inject))
      == if flags[0] || flags[1] || flags[2] || flags[4] then 0 else v.speedX10 * 1000 / 2500
  {
    hide Elapsed;
  }

  class App {
    var speedX10: u16
    var adcRaw: u16
    var sensorStatus: bv8
    var lastValidTick: u32
    var received: bool
    var e2eError: bool
    var goodStreak: u8
    var startTick: u32
    var pwm: u32
    const e2eSpeed: Receiver
    const faults: array<bool>
    const dtc: Manager

    function Sensor(): View
      reads this`speedX10, this`adcRaw, this`sensorStatus, this`lastValidTick, this`received, this`e2eError,
          this`goodStreak
    {
      View(speedX10, adcRaw, sensorStatus, lastValidTick, received, e2eError, goodStreak)
    }

    constructor (now: u32, receiver: Receiver, manager: Manager)
      ensures Sensor() == BLANK && startTick == now && e2eSpeed == receiver && dtc == manager
      ensures fresh(faults) && faults.Length == FAULT_COUNT && forall i :: 0 <= i < FAULT_COUNT ==> !faults[i]
    {
      speedX10, adcRaw, sensorStatus, lastValidTick := 0, 0, 0, 0;
      received, e2eError, goodStreak := false, false, 0;
      startTick, pwm := now, 0;
      e2eSpeed, dtc := receiver, manager;
      faults := new bool[FAULT_COUNT](_ => false);
    }

    /** HandleSpeedFrame */
    method HandleSpeedFrame(frame: array<bv8>, dlc: u8, tick: u32)
      requires frame.Length == FRAME_LEN
      modifies this`speedX10, this`adcRaw, this`sensorStatus, this`lastValidTick, this`received, this`e2eError,
          this`goodStreak
      modifies e2eSpeed
      ensures var (rx, status) := CheckStep(old(e2eSpeed.State()), frame[..], dlc);
        e2eSpeed.State() == rx && Sensor() == Handle(old(Sensor()), status, frame[..], tick)
      ensures Takes(old(Sensor()), Sensor(), CheckStep(old(e2eSpeed.State()), frame[..], dlc).1, frame[..], tick)
    {
      hide CheckStep, Takes, Number, Word;
      var status := e2eSpeed.Check(frame, dlc);
      HandleTakes(Sensor(), status, frame[..], tick);
      assert frame[..FRAME_LEN] == frame[..];
      if IsValid(status) {
        speedX10 := Word(frame[0], frame[1]);
        adcRaw := Word(frame[2], frame[3]);
        sensorStatus := frame[4];
        lastValidTick := tick;
        received := true;
        if goodStreak < E2E_HEAL_FRAMES { goodStreak := goodStreak + 1; } else { e2eError := false; }
      } else {
        e2eError := true;
        goodStreak := 0;
      }
    }

    /** SetFault */
    method SetFault(i: nat, active: bool)
      requires i < faults.Length
      modifies faults
      ensures faults[..] == old(faults[..])[i := active]
    {
      if faults[i] != active { faults[i] := active; }
    }

    /** One cycle of MonitorTask, from the copied view to the new output. */
    method Monitor(v: View, tick: u32, inject: bool)
      requires faults.Length == FAULT_COUNT && dtc.Valid()
      modifies faults, this`pwm, dtc.entries, dtc`history
      ensures faults[..] == Flags(FaultsOf(v, tick, startTick, inject))
      ensures Detected(v, tick, startTick, inject, faults[..])
      ensures pwm == if faults[0] || faults[1] || faults[2] || faults[4] then 0 else v.speedX10 * 1000 / 2500
      ensures pwm == DutyOf(v, FaultsOf(v, tick, startTick, inject))
      ensures dtc.Valid() && Told(old(dtc.history), dtc.history, faults[..], FAULT_COUNT)
    {
      DetectFaults(v, tick, inject);
      hide FaultsOf;
      ReportAll();
      var speedFault := faults[0] || faults[1] || faults[2] || faults[4];
      pwm := if speedFault then 0 else v.speedX10 * PWM_MAX / SPEED_MAX_X10;
    }

    /** The part of MonitorTask that sets the fault flags. */
    method DetectFaults(v: View, tick: u32, inject: bool)
      requires faults.Length == FAULT_COUNT
      modifies faults
      ensures faults[..] == Flags(FaultsOf(v, tick, startTick, inject))
      ensures Detected(v, tick, startTick, inject, faults[..])
    {
      var age := if v.received then Elapsed(tick, v.lastValidTick) else Elapsed(tick, startTick);
      SetFault(0, age > SPEED_TIMEOUT_MS && (v.received || Elapsed(tick, startTick) > STARTUP_GRACE_MS));
      SetFault(1, v.received && v.speedX10 > SPEED_MAX_X10);
      SetFault(2, v.e2eError);
      SetFault(3, v.sensorStatus & STATUS_ADC_ERROR != 0);
      SetFault(4, inject);
    }

    /** The reporting loop of MonitorTask: every monitor ran this cycle. */
    method ReportAll()
      requires faults.Length == FAULT_COUNT && dtc.Valid()
      modifies dtc.entries, dtc`history
      ensures dtc.Valid() && Told(old(dtc.history), dtc.history, faults[..], FAULT_COUNT)
    {
      var i := 0;
      while i < FAULT_COUNT
        invariant 0 <= i <= FAULT_COUNT && dtc.Valid()
        invariant Told(old(dtc.history), dtc.history, faults[..], i)
      {
        dtc.ReportResult(i, faults[i]);
        i := i + 1;
      }
    }
  }

  /** The first n codes have each been told their fault flag, the others nothing. */
  ghost predicate Told(before: seq<seq<Event>>, after: seq<seq<Event>>, flags: seq<bool>, n: nat)
    requires n <= |flags|
  {
    && |after| == |before|
    && forall k :: 0 <= k < |after| ==>
         after[k] == if k < n then before[k] + [if flags[k] then Failed else Passed] else before[k]
  }
}
