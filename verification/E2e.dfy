/**
 * common/e2e/e2e.c: alive counter and CRC on cyclic frames, and the receiver that judges them.
 */
module E2e {
  import opened Words
  import opened Crc
  import opened CrcErrors
  import opened CrcBursts

  const FRAME_LEN: int := 8
  const COUNTER_BYTE: int := 6
  const CRC_BYTE: int := 7
  const MAX_DELTA_COUNTER: int := 3

  datatype Status = Ok | OkSomeLost | Initial | ErrCrc | ErrRepeated | ErrWrongSeq | ErrLength

  /** E2e_IsValid: the data of a frame with this status may be used. */
  predicate IsValid(s: Status) { s.Ok? || s.OkSomeLost? || s.Initial? }

  datatype Rx = Rx(lastCounter: u8, synced: bool)

  function Alive(b: bv8): (n: u8)
    ensures n < 16
  {
    (b & 0x0F) as u8
  }

  /** How far the counter has moved, modulo 16. */
  function Judge(delta: int): Status {
    if delta == 0 then ErrRepeated
    else if delta == 1 then Ok
    else if delta <= MAX_DELTA_COUNTER then OkSomeLost
    else ErrWrongSeq
  }

  /** The receiver's reaction to one frame: its status and the new state. */
  function CheckStep(s: Rx, frame: seq<bv8>, dlc: u8): (Rx, Status)
    requires |frame| == FRAME_LEN
  {
    if dlc < FRAME_LEN then (s, ErrLength)
    else if !Intact(frame) then (s, ErrCrc)
    else
      var counter := Alive(frame[COUNTER_BYTE]);
      if !s.synced then (Rx(counter, true), Initial)
      else
        var status := Judge((counter - s.lastCounter) % 16);
        (if status.ErrRepeated? then s else s.(lastCounter := counter), status)
  }

  lemma AliveOf(n: nat)
    requires n < 16
    ensures Alive(n as bv8) == n && n as bv8 as int == n
  {
    match n
    case 0 => case 1 => case 2 => case 3 => case 4 => case 5 => case 6 => case 7 =>
    case 8 => case 9 => case 10 => case 11 => case 12 => case 13 => case 14 => case _ =>
  }

  /** The counter is the low half of its byte. */
  lemma AliveIs(b: bv8)
    ensures Alive(b) == b as int % 16
  {}

  /** The frame E2e_Protect makes of six payload bytes. */
  function Protected(payload: seq<bv8>, counter: nat): (f: seq<bv8>)
    requires |payload| == COUNTER_BYTE
    ensures |f| == FRAME_LEN
  {
    var body := payload + [(counter % 16) as bv8];
    body + [CrcOf(body)]
  }

  /** The six payload bytes as they were, the counter in the low half of byte 6, and a check value that fits. */
  lemma ProtectedIsIntact(payload: seq<bv8>, counter: nat)
    requires |payload| == 6
    ensures Protected(payload, counter)[..6] == payload && Protected(payload, counter)[6] as int == counter % 16
    ensures Protected(payload, counter)[7] == CrcOf(Protected(payload, counter)[..7])
    ensures Intact(Protected(payload, counter)) && Alive(Protected(payload, counter)[6]) == counter % 16
  {
    hide CrcOf;
    var body := payload + [(counter % 16) as bv8];
    assert Protected(payload, counter)[..7] == body && body[..6] == payload;
    AliveOf(counter % 16);
  }

  /** E2e_Protect */
  method Protect(frame: array<bv8>, counter: u8) returns (next: u8)
    requires frame.Length >= FRAME_LEN
    modifies frame
    ensures frame[..8] == Protected(old(frame[..6]), counter)
    ensures frame[..6] == old(frame[..6]) && frame[8..] == old(frame[8..])
    ensures frame[6] as int == counter % 16 && Intact(frame[..8])
    ensures next == (counter + 1) % 16
  {
    frame[COUNTER_BYTE] := (counter % 16) as bv8;
    var crc := Crc8(frame, CRC_BYTE);
    hide CrcOf;
    assert frame[..CRC_BYTE] == old(frame[..COUNTER_BYTE]) + [(counter % 16) as bv8];
    frame[CRC_BYTE] := crc;
    ProtectedIsIntact(old(frame[..6]), counter);
    assert frame[..8][..6] == frame[..6] && frame[..8][6] == frame[6];
    next := (counter + 1) % 16;
  }

  class Receiver {
    var lastCounter: u8
    var synced: bool

    function State(): Rx
      reads this
    {
      Rx(lastCounter, synced)
    }

    constructor ()
      ensures State() == Rx(0, false)
    {
      lastCounter := 0;
      synced := false;
    }

    /** E2e_InitRx */
    method InitRx()
      modifies this
      ensures State() == Rx(0, false)
    {
      lastCounter := 0;
      synced := false;
    }

    /** E2e_Check; the C difference of two unsigned bytes is taken in int, so masking it is reduction modulo 16. */
    method Check(frame: array<bv8>, dlc: u8) returns (status: Status)
      requires frame.Length >= FRAME_LEN
      modifies this
      ensures (State(), status) == CheckStep(old(State()), frame[..FRAME_LEN], dlc)
    {
      hide CrcOf;
      if dlc < FRAME_LEN { return ErrLength; }
      var crc := Crc8(frame, CRC_BYTE);
      assert frame[..FRAME_LEN][..CRC_BYTE] == frame[..CRC_BYTE];
      if crc != frame[CRC_BYTE] { return ErrCrc; }
      var counter := Alive(frame[COUNTER_BYTE]);
      if !synced {
        synced := true;
        lastCounter := counter;
        return Initial;
      }
      var delta := (counter - lastCounter) % 16;
      if delta == 0 { return ErrRepeated; }
      lastCounter := counter;
      if delta == 1 { return Ok; }
      if delta <= MAX_DELTA_COUNTER { return OkSomeLost; }
      return ErrWrongSeq;
    }
  }

  // ---------------------------------------------------------------------------------------------
  // Corruption
  // ---------------------------------------------------------------------------------------------

  /** A burst of at most eight bits, or any two flipped bits, in a frame: reported, and the state is untouched. */
  lemma CorruptionIsCaught(s: Rx, f: seq<bv8>, e: seq<bv8>, dlc: u8)
    requires |f| == |e| == FRAME_LEN && Intact(f) && dlc >= FRAME_LEN
    requires Burst(BitsOf(e)) || exists i, j :: TwoBits(BitsOf(e), i, j)
    ensures CheckStep(s, Damage(f, e), dlc) == (s, ErrCrc)
  {
    hide Intact, BitsOf, Burst, TwoBits;
    if Burst(BitsOf(e)) { BurstDetected(f, e); } else { FrameErrorsDetected(f, e); }
  }

  // ---------------------------------------------------------------------------------------------
  // The receiver over a stream
  // ---------------------------------------------------------------------------------------------

  /** What reaches the receiver: the n-th frame of the stream unharmed, a damaged frame, or a short one. */
  datatype Arrival =
    | Frame(n: nat, payload: seq<bv8>)
    | Damaged(bytes: seq<bv8>)
    | Short(bytes: seq<bv8>, dlc: u8)

  predicate Legal(a: Arrival) {
    match a
    case Frame(_, payload) => |payload| == COUNTER_BYTE
    case Damaged(bytes) => |bytes| == FRAME_LEN && !Intact(bytes)
    case Short(bytes, dlc) => |bytes| == FRAME_LEN && dlc < FRAME_LEN
  }

  /** The bytes the receiver is given. */
  function Delivered(a: Arrival): (f: seq<bv8>)
    requires Legal(a)
    ensures |f| == FRAME_LEN
  {
    match a
    case Frame(n, payload) => Protected(payload, n)
    case Damaged(bytes) => bytes
    case Short(bytes, _) => bytes
  }

  function Receive(s: Rx, a: Arrival): (Rx, Status)
    requires Legal(a)
  {
    CheckStep(s, Delivered(a), if a.Short? then a.dlc else FRAME_LEN)
  }

  ghost predicate AllLegal(run: seq<Arrival>) { forall i :: 0 <= i < |run| ==> Legal(run[i]) }

  ghost function After(run: seq<Arrival>): Rx
    requires AllLegal(run)
  {
    if run == [] then Rx(0, false) else Receive(After(run[..|run| - 1]), run[|run| - 1]).0
  }

  /** The number of the stream frame the next one is measured against; a repeated counter does not move it. */
  function MoveAnchor(m: Option<nat>, a: Arrival): Option<nat> {
    if !a.Frame? || (m.Some? && (a.n - m.value) % 16 == 0) then m else Some(a.n)
  }

  function Anchor(run: seq<Arrival>): Option<nat> {
    if run == [] then None else MoveAnchor(Anchor(run[..|run| - 1]), run[|run| - 1])
  }

  predicate Holds(s: Rx, m: Option<nat>) {
    s.synced == m.Some? && (m.Some? ==> s.lastCounter == m.value % 16)
  }

  lemma SameDistance(n: nat, m: nat)
    ensures (n % 16 - m % 16) % 16 == (n - m) % 16
  {}

  lemma ReceiveFrame(s: Rx, n: nat, payload: seq<bv8>, m: Option<nat>)
    requires |payload| == COUNTER_BYTE && Holds(s, m)
    ensures var r := Receive(s, Frame(n, payload));
      && r.1 == (if m.None? then Initial else Judge((n - m.value) % 16))
      && Holds(r.0, MoveAnchor(m, Frame(n, payload)))
  {
    ProtectedIsIntact(payload, n);
    if m.Some? { SameDistance(n, m.value); }
    hide Intact, Alive, Protected;
  }

  lemma ReceiveOther(s: Rx, a: Arrival)
    requires Legal(a) && !a.Frame?
    ensures Receive(s, a) == (s, if a.Short? then ErrLength else ErrCrc)
  {
    hide Intact;
  }

  lemma {:induction false} AnchorHeld(run: seq<Arrival>)
    requires AllLegal(run)
    ensures Holds(After(run), Anchor(run))
    decreases |run|
  {
    hide Receive;
    if run != [] {
      var g, a := run[..|run| - 1], run[|run| - 1];
      AnchorHeld(g);
      if a.Frame? { ReceiveFrame(After(g), a.n, a.payload, Anchor(g)); } else { ReceiveOther(After(g), a); }
    }
  }

  /** The status of an intact frame that is `moved` frames, modulo 16, after the anchor. */
  function Moved(moved: int): Status {
    match moved
    case 0 => ErrRepeated
    case 1 => Ok
    case 2 => OkSomeLost
    case 3 => OkSomeLost
    case _ => ErrWrongSeq
  }

  /**
   * Over any run of losses, repeats and corruption, the status of an intact frame depends only on its distance in
   * the stream, modulo 16, from the last frame that moved the counter; damage is reported and changes nothing.
   * Whatever is judged valid is a frame of the stream and carries the payload its sender protected.
   */
  lemma StreamStatus(run: seq<Arrival>, a: Arrival)
    requires AllLegal(run) && Legal(a)
    ensures var r := Receive(After(run), a);
      match a
      case Frame(n, _) => r.1 == (if Anchor(run).None? then Initial else Moved((n - Anchor(run).value) % 16))
      case Damaged(_) => r == (After(run), ErrCrc)
      case Short(_, _) => r == (After(run), ErrLength)
    ensures Receive(After(run), a).1 in {Ok, OkSomeLost, Initial} ==> a.Frame? && Delivered(a)[..6] == a.payload
  {
    hide Receive, After, Anchor, Protected;
    AnchorHeld(run);
    if a.Frame? { ProtectedIsIntact(a.payload, a.n); }
    if a.Frame? { ReceiveFrame(After(run), a.n, a.payload, Anchor(run)); } else { ReceiveOther(After(run), a); }
  }

  /**
   * After a frame m that moved the counter, `lost` frames go missing and the next one arrives. The verdict on every
   * number of losses, modulo 16: none is unnoticed, one or two are tolerated, three to fourteen are a wrong sequence,
   * and fifteen look like a repetition. So 1 to 15 losses are never taken for none.
   */
  lemma LossesSeen(run: seq<Arrival>, lost: nat, payload: seq<bv8>)
    requires AllLegal(run) && Anchor(run).Some? && |payload| == COUNTER_BYTE
    ensures var status := Receive(After(run), Frame(Anchor(run).value + lost + 1, payload)).1;
      && (status == Ok <==> lost % 16 == 0)
      && (status == OkSomeLost <==> 1 <= lost % 16 <= 2)
      && (status == ErrWrongSeq <==> 3 <= lost % 16 <= 14)
      && (status == ErrRepeated <==> lost % 16 == 15)
      && (IsValid(status) <==> lost % 16 <= 2)
  {
    hide Receive, After, Anchor;
    StreamStatus(run, Frame(Anchor(run).value + lost + 1, payload));
    assert (lost + 1) % 16 == if lost % 16 == 15 then 0 else lost % 16 + 1;
  }

  lemma NoDamage(f: seq<bv8>, e: seq<bv8>)
    requires |f| == |e| && forall i :: 0 <= i < |e| ==> e[i] == 0
    ensures Damage(f, e) == f
  {
    hide Add;
    forall i | 0 <= i < |f| ensures Add(f[i], e[i]) == f[i] { AddFacts(f[i], 0, 0, 0); }
  }

  /**
   * From sender to receiver over a bus that may harm the frame by a burst of up to eight bits or by any two bits: what
   * is judged valid carries exactly the payload that was protected.
   */
  lemma ValidCarriesPayload(s: Rx, payload: seq<bv8>, n: nat, e: seq<bv8>, dlc: u8)
    requires |payload| == 6 && |e| == 8
    requires (forall i :: 0 <= i < 8 ==> e[i] == 0) || Burst(BitsOf(e)) || exists i, j :: TwoBits(BitsOf(e), i, j)
    ensures var f := Damage(Protected(payload, n), e);
      IsValid(CheckStep(s, f, dlc).1) ==> f == Protected(payload, n) && f[..6] == payload && dlc >= 8
  {
    hide Intact, BitsOf, Burst, TwoBits, Protected, Damage;
    ProtectedIsIntact(payload, n);
    if dlc >= 8 {
      if forall i :: 0 <= i < 8 ==> e[i] == 0 { NoDamage(Protected(payload, n), e); }
      else { CorruptionIsCaught(s, Protected(payload, n), e, dlc); }
    }
  }
}
