/**
 * sensor_ecu/Core/App/tester_app.c: the interrupt handler and the drain loop as methods over a real array. Each
 * method performs steps of `Ring`; the drain loop lets the interrupt fire wherever it touches shared memory.
 */
module RingDrain {
  import opened Words
  import opened Ring

  /** The interrupt handler run to its end. */
  ghost function Isr(s: System, frame: CanFrame): (r: System)
    requires Inv(s) && s.producer == Idle
    ensures Inv(r) && r.producer == Idle
  {
    ProducerStep(s, Arrive(frame));
    var a := Do(s, Arrive(frame));
    ProducerStep(a, Check);
    var b := Do(a, Check);
    ProducerStep(b, Store);
    var c := Do(b, Store);
    ProducerStep(c, Publish);
    Do(c, Publish)
  }

  /** What interrupts may change while the main loop is between two accesses. */
  ghost predicate Interrupted(s: System, t: System) {
    && s.producer == t.producer == Idle && Inv(t)
    && t.tail == s.tail && t.freed == s.freed && t.processed == s.processed && t.consumer == s.consumer
    && s.published <= t.published
  }

  class RxRing {
    const slots: array<CanFrame>
    var head: u8
    var tail: u8
    var overflow: u32
    ghost var consumer: Consumer
    ghost var arrived: seq<CanFrame>
    ghost var published: seq<CanFrame>
    ghost var processed: seq<CanFrame>
    ghost var freed: nat
    ghost var verdicts: seq<bool>
    ghost var dropped: nat

    ghost function Now(): System
      reads this, slots
    {
      System(slots[..], head, tail, overflow, Idle, consumer, arrived, published, processed, freed, verdicts, dropped)
    }

    constructor (blank: CanFrame)
      ensures Now() == Boot(seq(RING_LEN, _ => blank)) && Inv(Now()) && fresh(slots)
    {
      slots := new CanFrame[RING_LEN](_ => blank);
      head, tail, overflow := 0, 0, 0;
      consumer := Waiting;
      arrived, published, processed, freed, verdicts, dropped := [], [], [], 0, [], 0;
      new;
      assert slots[..] == seq(RING_LEN, _ => blank);
    }

    /** TesterApp_OnCanFrameIsr */
    method OnCanFrameIsr(frame: CanFrame)
      requires Inv(Now())
      modifies this`head, this`overflow, slots, this`arrived, this`published, this`verdicts, this`dropped
      ensures Now() == Isr(old(Now()), frame)
      ensures frame.id != 0x7E8 ==> Now() == old(Now())
      ensures frame.id == 0x7E8 ==> arrived == old(arrived) + [frame]
      ensures frame.id == 0x7E8 ==>
        published == if |old(published)| - freed < 31 then old(published) + [frame] else old(published)
    {
      hide Inv, Isr;
      Usable(Now());
      IsrIs(Now(), frame);
      Room(Now());
      if frame.id != RESPONSE_ID { return; }
      arrived := arrived + [frame];
      var next: u8 := (head + 1) % RING_LEN;
      if next == tail {
        overflow := (overflow + 1) % TWO32;
        dropped, verdicts := dropped + 1, verdicts + [false];
        return;
      }
      slots[head] := frame;
      head := next;
      published, verdicts := published + [frame], verdicts + [true];
    }

    /** Up to `left` frames arrive now; the result is how many are still to come. */
    method Interrupts(left: nat) returns (rest: nat)
      requires Inv(Now())
      modifies this`head, this`overflow, slots, this`arrived, this`published, this`verdicts, this`dropped
      ensures Interrupted(old(Now()), Now()) && rest + |published| <= left + |old(published)|
    {
      hide Inv, Isr;
      rest := left;
      var more: bool := *;
      while more && rest > 0
        invariant Inv(Now()) && rest + |published| <= left + |old(published)| && old(published) <= published
      {
        var frame: CanFrame := *;
        IsrGrows(Now(), frame);
        OnCanFrameIsr(frame);
        rest := rest - 1;
        more := *;
      }
    }

    /**
     * The drain loop of TesterApp_Task. When it ends, every accepted frame has been processed, in order. Any finite
     * number of frames may arrive while it runs.
     */
    method Drain()
      requires Inv(Now()) && consumer == Waiting
      modifies this, slots
      ensures Inv(Now()) && consumer == Waiting && tail == head
      ensures old(processed) <= processed == published && freed == |published|
    {
      hide Inv, Isr;
      var left: nat := *;
      left := Interrupts(left);
      Usable(Now());
      while tail != head
        invariant Inv(Now()) && consumer == Waiting && freed <= |published|
        invariant old(processed) <= processed
        decreases left + |published| - freed
      {
        left := DrainOne(left);
        Usable(Now());
      }
      Drained(Now());
    }

    /** One round of the loop; interrupts may come before, while and after the frame is processed. */
    method DrainOne(left: nat) returns (rest: nat)
      requires Inv(Now()) && consumer == Waiting && tail != head
      modifies this, slots
      ensures Inv(Now()) && consumer == Waiting && freed == old(freed) + 1
      ensures old(processed) <= processed && rest + |published| <= left + |old(published)|
    {
      hide Inv, Isr;
      Begin();
      rest := Interrupts(left);
      Process();
      rest := Interrupts(rest);
      Release();
      rest := Interrupts(rest);
    }

    /** The loop condition held. */
    ghost method Begin()
      requires Inv(Now()) && consumer == Waiting && tail != head
      modifies this`consumer
      ensures Inv(Now()) && consumer == Processing
    {
      hide Inv;
      Usable(Now());
      ConsumerStep(Now(), Take);
      consumer := Processing;
    }

    /** IsoTp_RxFrame reads the slot at the tail. */
    method Process()
      requires Inv(Now()) && consumer == Processing
      modifies this`consumer, this`processed
      ensures Inv(Now()) && consumer == Processed && processed == old(processed) + [slots[..][tail]]
    {
      hide Inv;
      Usable(Now());
      ConsumerStep(Now(), Finish);
      var frame := slots[tail];
      processed := processed + [frame];
      consumer := Processed;
    }

    method Release()
      requires Inv(Now()) && consumer == Processed
      modifies this`tail, this`consumer, this`freed
      ensures Inv(Now()) && consumer == Waiting && freed == old(freed) + 1
    {
      hide Inv;
      Usable(Now());
      ConsumerStep(Now(), Free);
      tail := (tail + 1) % RING_LEN;
      freed := freed + 1;
      consumer := Waiting;
    }
  }

  lemma IsrIs(s: System, frame: CanFrame)
    requires Inv(s) && s.producer == Idle
    ensures var next := (s.head + 1) % RING_LEN;
      Isr(s, frame)
      == if frame.id != RESPONSE_ID then s
         else if next == s.tail
         then s.(arrived := s.arrived + [frame], overflow := (s.overflow + 1) % TWO32, dropped := s.dropped + 1,
             verdicts := s.verdicts + [false])
         else s.(arrived := s.arrived + [frame], slots := s.slots[s.head := frame], head := next,
                 published := s.published + [frame], verdicts := s.verdicts + [true])
  {
    hide SlotsInv, OrderInv, ConsumerInv, CountersInv;
  }

  /** One run of the handler appends at most one accepted frame. */
  lemma IsrGrows(s: System, frame: CanFrame)
    requires Inv(s) && s.producer == Idle
    ensures var t := Isr(s, frame);
      s.published <= t.published && |t.published| <= |s.published| + 1
  {
    hide Inv, Isr;
    IsrIs(s, frame);
  }

  /** The test of the handler in terms of the frames held. */
  lemma Room(s: System)
    requires Inv(s)
    ensures (s.head + 1) % 32 == s.tail <==> Held(s) == 31
    ensures Held(s) <= 31
  {
    FullCheck(|s.published|, s.freed);
  }

  lemma Usable(s: System)
    requires Inv(s)
    ensures s.head < RING_LEN && s.tail < RING_LEN && |s.slots| == RING_LEN && s.freed <= |s.published|
  {}

  lemma Drained(s: System)
    requires Inv(s) && s.head == s.tail && s.consumer == Waiting
    ensures s.freed == |s.published| && s.processed == s.published
  {
    EmptyCheck(|s.published|, s.freed);
  }
}
