/**
 * sensor_ecu/Core/App/tester_app.c: the ring between the CAN interrupt and the main loop.
 *
 * First every memory access of either side is a step of its own and the two sides interleave freely, which
 * includes the interrupt running between any two accesses of the main loop. Then the same ring as an object with
 * a real array, whose drain loop can be interrupted everywhere.
 */
module Ring {
  import opened Words

  const RING_LEN: int := 32
  const RESPONSE_ID: u16 := 0x7E8

  datatype CanFrame = CanFrame(id: u16, dlc: u8, data: seq<u8>)

  /** Where the interrupt handler is: after computing `next`, after the full check, after storing the frame. */
  datatype Producer =
    | Idle
    | Checking(frame: CanFrame, next: u8)
    | Storing(frame: CanFrame, next: u8)
    | Publishing(frame: CanFrame, next: u8)

  /** Where the drain loop is: `Processing` while IsoTp_RxFrame works on the slot, `Processed` afterwards. */
  datatype Consumer = Waiting | Processing | Processed

  /** The shared memory, the two program counters, and what happened so far. */
  datatype System = System(
    slots: seq<CanFrame>, head: u8, tail: u8, overflow: u32, producer: Producer, consumer: Consumer,
    arrived: seq<CanFrame>, published: seq<CanFrame>, processed: seq<CanFrame>, freed: nat,
    verdicts: seq<bool>, dropped: nat)

  datatype Step =
    /** The interrupt fires for a frame. */
    | Arrive(frame: CanFrame)
    | Check
    /** Part of the structure copy: the slot holds anything meanwhile. */
    | Scribble(garbage: CanFrame)
    | Store
    | Publish
    /** The main loop finds tail != head. */
    | Take
    /** IsoTp_RxFrame returns; it has read the slot. */
    | Finish
    | Free

  ghost function Boot(slots: seq<CanFrame>): System {
    System(slots, 0, 0, 0, Idle, Waiting, [], [], [], 0, [], 0)
  }

  /** One access of one side; a step that its side is not ready for does nothing. */
  ghost function Do(s: System, step: Step): System
    requires |s.slots| == RING_LEN && s.head < RING_LEN && s.tail < RING_LEN
  {
    match step
    case Arrive(frame) =>
      if s.producer != Idle || frame.id != RESPONSE_ID then s
      else s.(producer := Checking(frame, (s.head + 1) % RING_LEN), arrived := s.arrived + [frame])
    case Check =>
      if !s.producer.Checking? then s
      else if s.producer.next == s.tail then
        s.(overflow := (s.overflow + 1) % TWO32, dropped := s.dropped + 1, verdicts := s.verdicts + [false],
            producer := Idle)
      else s.(producer := Storing(s.producer.frame, s.producer.next))
    case Scribble(garbage) => if !s.producer.Storing? then s else s.(slots := s.slots[s.head := garbage])
    case Store =>
      if !s.producer.Storing? then s
      else s.(slots := s.slots[s.head := s.producer.frame], producer := Publishing(s.producer.frame, s.producer.next))
    case Publish =>
      if !s.producer.Publishing? then s
      else s.(head := s.producer.next, producer := Idle, published := s.published + [s.producer.frame],
                verdicts := s.verdicts + [true])
    case Take => if s.consumer != Waiting || s.tail == s.head then s else s.(consumer := Processing)
    case Finish => if s.consumer != Processing then s
        else s.(consumer := Processed, processed := s.processed + [s.slots[s.tail]])
    case Free =>
      if s.consumer != Processed then s
      else s.(tail := (s.tail + 1) % RING_LEN, consumer := Waiting, freed := s.freed + 1)
  }

  /** The frames in the ring that the main loop has not given back yet. */
  ghost function Held(s: System): int { |s.published| - s.freed }

  ghost predicate CountersInv(s: System) {
    && |s.slots| == RING_LEN && 0 <= Held(s) < RING_LEN
    && s.head == |s.published| % RING_LEN && s.tail == s.freed % RING_LEN
    && s.overflow == s.dropped % TWO32
  }

  /** Every frame between tail and head is in its slot, also the one being processed. */
  ghost predicate SlotsInv(s: System)
    requires CountersInv(s)
  {
    forall k :: s.freed <= k < |s.published| ==> s.slots[k % RING_LEN] == s.published[k]
  }

  ghost predicate ProducerInv(s: System)
    requires CountersInv(s)
  {
    match s.producer
    case Idle => true
    case Checking(_, next) => next == (s.head + 1) % RING_LEN
    case Storing(_, next) => next == (s.head + 1) % RING_LEN && Held(s) < RING_LEN - 1
    case Publishing(frame, next) =>
      next == (s.head + 1) % RING_LEN && Held(s) < RING_LEN - 1 && s.slots[s.head] == frame
  }

  ghost predicate ConsumerInv(s: System) {
    && (s.consumer != Waiting ==> Held(s) > 0)
    && |s.processed| == s.freed + (if s.consumer == Processed then 1 else 0)
    && s.processed <= s.published
  }

  /** The frames whose verdict is true, in order. */
  ghost function Kept(frames: seq<CanFrame>, verdicts: seq<bool>): seq<CanFrame>
    requires |frames| == |verdicts|
  {
    if frames == [] then []
    else
      var n := |frames| - 1;
      Kept(frames[..n], verdicts[..n]) + if verdicts[n] then [frames[n]] else []
  }

  ghost function Drops(verdicts: seq<bool>): nat {
    if verdicts == [] then 0 else Drops(verdicts[..|verdicts| - 1]) + if verdicts[|verdicts| - 1] then 0 else 1
  }

  /** The handler deals with one arrival after the other; the published frames are those not dropped, in order. */
  ghost predicate OrderInv(s: System) {
    && |s.arrived| == |s.verdicts| + (if s.producer == Idle then 0 else 1)
    && (s.producer != Idle ==> s.producer.frame == s.arrived[|s.verdicts|])
    && s.published == Kept(s.arrived[..|s.verdicts|], s.verdicts)
    && s.dropped == Drops(s.verdicts)
    && forall i :: 0 <= i < |s.arrived| ==> s.arrived[i].id == 0x7E8
  }

  ghost predicate Inv(s: System) {
    && CountersInv(s) && SlotsInv(s) && ProducerInv(s) && ConsumerInv(s) && OrderInv(s)
  }

  /** The ring is full exactly when the next head would meet the tail. */
  lemma FullCheck(p: nat, f: nat)
    requires 0 <= p - f < RING_LEN
    ensures (p % RING_LEN + 1) % RING_LEN == f % RING_LEN <==> p - f == RING_LEN - 1
    ensures (p % RING_LEN + 1) % RING_LEN == (p + 1) % RING_LEN
  {}

  /** Two frames held at the same time are in different slots. */
  lemma DifferentSlots(a: nat, b: nat)
    requires 0 < b - a < RING_LEN
    ensures a % RING_LEN != b % RING_LEN
  {}

  lemma EmptyCheck(p: nat, f: nat)
    requires 0 <= p - f < RING_LEN
    ensures p % RING_LEN == f % RING_LEN <==> p == f
  {
    if p != f { DifferentSlots(f, p); }
  }

  /** Writing the head slot touches no held frame. */
  lemma HeadSlotIsFree(s: System, x: CanFrame)
    requires CountersInv(s) && SlotsInv(s)
    ensures forall k :: s.freed <= k < |s.published| ==> s.slots[s.head := x][k % RING_LEN] == s.published[k]
  {
    forall k | s.freed <= k < |s.published| ensures s.slots[s.head := x][k % RING_LEN] == s.published[k] {
      DifferentSlots(k, |s.published|);
    }
  }

  lemma OrderStep(s: System, step: Step)
    requires CountersInv(s) && OrderInv(s)
    ensures OrderInv(Do(s, step))
  {
    var n := |s.verdicts|;
    if s.producer != Idle {
      assert s.arrived[..n + 1][..n] == s.arrived[..n];
      assert (s.verdicts + [true])[..n] == s.verdicts && (s.verdicts + [false])[..n] == s.verdicts;
    } else if step.Arrive? {
      assert (s.arrived + [step.frame])[..n] == s.arrived[..n];
    }
  }

  /** Storing into the head slot. */
  lemma WriteStep(s: System, step: Step)
    requires Inv(s) && s.producer.Storing? && (step.Scribble? || step.Store?)
    ensures var t := Do(s, step); CountersInv(t) && SlotsInv(t) && ProducerInv(t) && ConsumerInv(t)
  {
    hide OrderInv;
    HeadSlotIsFree(s, if step.Store? then s.producer.frame else step.garbage);
  }

  lemma PublishStep(s: System)
    requires Inv(s) && s.producer.Publishing?
    ensures var t := Do(s, Publish); CountersInv(t) && SlotsInv(t) && ProducerInv(t) && ConsumerInv(t)
  {
    hide OrderInv;
    NextSlot(|s.published|);
  }

  lemma CheckStep(s: System)
    requires Inv(s) && s.producer.Checking?
    ensures var t := Do(s, Check); CountersInv(t) && SlotsInv(t) && ProducerInv(t) && ConsumerInv(t)
  {
    hide OrderInv;
    FullCheck(|s.published|, s.freed);
  }

  lemma ProducerStep(s: System, step: Step)
    requires Inv(s) && (step.Arrive? || step.Check? || step.Scribble? || step.Store? || step.Publish?)
    ensures Inv(Do(s, step))
  {
    hide OrderInv, SlotsInv;
    OrderStep(s, step);
    if step.Check? && s.producer.Checking? { CheckStep(s); }
    else if step.Publish? && s.producer.Publishing? { PublishStep(s); }
    else if (step.Scribble? || step.Store?) && s.producer.Storing? { WriteStep(s, step); }
    else { SlotsKept(s, step); }
  }

  lemma SlotsKept(s: System, step: Step)
    requires CountersInv(s) && SlotsInv(s) && Do(s, step).slots == s.slots && Do(s, step).published == s.published
    requires CountersInv(Do(s, step)) && Do(s, step).freed == s.freed
    ensures SlotsInv(Do(s, step))
  {}

  /** The interrupt takes up exactly the responses, identifier 7E8, and each of them. */
  lemma ResponsesArrive(s: System, frame: CanFrame)
    requires Inv(s) && s.producer == Idle
    ensures var t := Do(s, Arrive(frame));
      if frame.id == 0x7E8 then t.arrived == s.arrived + [frame] && t.producer.Checking? && t.producer.frame == frame
      else t == s
  {
    hide SlotsInv, OrderInv;
  }

  /** A frame is lost exactly when 31 are held at the moment of the check. */
  lemma LostOnlyWhenFull(s: System)
    requires Inv(s) && s.producer.Checking?
    ensures Do(s, Check).dropped == s.dropped + (if Held(s) == 31 then 1 else 0)
  {
    FullCheck(|s.published|, s.freed);
  }

  lemma NextSlot(n: nat)
    ensures (n % RING_LEN + 1) % RING_LEN == (n + 1) % RING_LEN
  {}

  lemma ConsumerStep(s: System, step: Step)
    requires Inv(s) && (step.Take? || step.Finish? || step.Free?)
    ensures Inv(Do(s, step))
  {
    hide OrderInv;
    OrderStep(s, step);
    match step
    case Take => EmptyCheck(|s.published|, s.freed);
    case Finish => FinishStep(s);
    case Free => NextSlot(s.freed);
  }

  lemma FinishStep(s: System)
    requires CountersInv(s) && SlotsInv(s) && ConsumerInv(s)
    ensures ConsumerInv(Do(s, Finish))
  {
    if s.consumer == Processing {
      assert s.slots[s.tail] == s.published[s.freed];
      assert s.published[..s.freed + 1] == s.published[..s.freed] + [s.published[s.freed]];
    }
  }

  ghost function Run(s: System, steps: seq<Step>): (r: System)
    requires Inv(s)
    ensures Inv(r)
    decreases |steps|
  {
    if steps == [] then s
    else
      var before := Run(s, steps[..|steps| - 1]);
      var step := steps[|steps| - 1];
      if step.Take? || step.Finish? || step.Free? then ConsumerStep(before, step); Do(before, step)
      else ProducerStep(before, step); Do(before, step)
  }

  /**
   * Under every interleaving: the frames given to IsoTp_RxFrame are the accepted arrivals, in order; every frame
   * still held, the one being processed included, is intact in its slot; at most 31 are held; and every matching
   * arrival was accepted, is in the handler, or is counted as lost. Only responses, identifier 7E8, arrive at all.
   */
  lemma RingIsAFifo(slots: seq<CanFrame>, steps: seq<Step>)
    requires |slots| == RING_LEN
    ensures var s := Run(Boot(slots), steps);
      && s.processed <= s.published == Kept(s.arrived[..|s.verdicts|], s.verdicts)
      && 0 <= Held(s) <= 31
      && (forall k :: s.freed <= k < |s.published| ==> s.slots[k % RING_LEN] == s.published[k])
      && (s.consumer == Processing ==> s.slots[s.tail] == s.published[|s.processed|])
      && |s.arrived| == |s.published| + s.dropped + (if s.producer == Idle then 0 else 1)
      && |s.published| == s.freed + Held(s)
      && s.overflow == s.dropped % TWO32
      && forall i :: 0 <= i < |s.arrived| ==> s.arrived[i].id == 0x7E8
  {
    hide Run;
    var s := Run(Boot(slots), steps);
    assert Inv(s);
    KeptCount(s.arrived[..|s.verdicts|], s.verdicts);
  }

  lemma {:induction false} KeptCount(frames: seq<CanFrame>, verdicts: seq<bool>)
    requires |frames| == |verdicts|
    ensures |Kept(frames, verdicts)| + Drops(verdicts) == |frames|
    decreases |frames|
  {
    if frames != [] {
      var n := |frames| - 1;
      KeptCount(frames[..n], verdicts[..n]);
    }
  }
}
