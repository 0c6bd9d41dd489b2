/**
 * One transfer over channels that may lose any frame, with any timeout firing at any time.
 *
 * Sequence numbers repeat every 16 frames, so a receiver that misses 16 consecutive frames does not
 * notice. What saves the transfer is counting: the receiver finishes only after as many consecutive
 * frames as were sent, so a missing frame can never be made up for. A reception left over from an earlier
 * transfer does no harm as long as the old continue-to-sends that are still around cannot release enough
 * consecutive frames to complete it.
 */
module IsoTpLossy {
  import opened Words
  import opened IsoTpModel
  import IsoTpReceiver
  import IsoTpSender
  import S = IsoTpSession
  import opened IsoTpChannel

  /**
   * The conversation about one message. Bookkeeping for the proof: `start` is the state before it, `sent`
   * frames left the sender, `at[i]` is the position of the i-th queued frame in the segmentation, `last` the
   * position of the frame delivered last, -1 before any.
   */
  datatype Transfer = Transfer(s: S.Session, msg: seq<u8>, start: S.Session, sent: nat, at: seq<nat>, last: int)

  ghost function Do(t: Transfer, c: S.Setup, act: Act): (r: Transfer)
    requires t.s.tx.Valid() && t.s.rx.Valid()
    ensures r.s == Happen(t.s, c, act)
  {
    var s := Happen(t.s, c, act);
    match act
    case Step(a) =>
      var n := |s.dataQ| - |t.s.dataQ|;
      if a.Send? && n > 0 then t.(s := s, sent := t.sent + n, at := t.at + seq(n, i => t.sent))
      else if a.DeliverData? && t.at != [] then t.(s := s, at := t.at[1..], last := t.at[0])
      else t.(s := s)
    case DropData(i) => t.(s := s, at := Remove(t.at, i))
    case DropFc(_) => t.(s := s)
  }

  ghost function Run(t: Transfer, c: S.Setup, acts: seq<Act>): (r: Transfer)
    requires t.s.tx.Valid() && t.s.rx.Valid()
    ensures r.s.tx.Valid() && r.s.rx.Valid()
    decreases |acts|
  {
    if acts == [] then t else Do(Run(t, c, acts[..|acts| - 1]), c, acts[|acts| - 1])
  }

  /**
   * The receiver never stored more consecutive frames than have passed; if it stored all that passed, it
   * holds the message so far.
   */
  ghost predicate Behind(a: Asm, m: seq<u8>, last: int) {
    a.receiving ==>
      && a.Valid() && IsMessage(m) && SF_MAX_DATA < |m| == a.length
      && a.offset == FF_DATA + CF_MAX_DATA * Stored(a)
      && Stored(a) <= last
      && (Stored(a) == last ==> a.buf[..a.offset] == m[..a.offset])
  }

  /** The queued frames are frames of the message that are out but not yet delivered, in order. */
  ghost predicate Queue(q: seq<Frame>, at: seq<nat>, m: seq<u8>, last: int, sent: nat) {
    && IsMessage(m)
    && |at| == |q|
    && -1 <= last < sent <= |Segment(m)|
    && (forall i :: 0 <= i < |at| ==> last < at[i] < sent && q[i] == Segment(m)[at[i]])
    && (forall i, j :: 0 <= i < j < |at| ==> at[i] < at[j])
  }

  ghost predicate Sender(tx: Tx, m: seq<u8>, sent: nat) {
    tx.Valid() && (tx.Busy() ==> IsMessage(m) && tx.Message() == m && tx.Emitted() == sent < |Segment(m)|)
  }

  /** An Ok indication carries the message, and only the last frame of the message brings it. */
  ghost predicate Told(inds: seq<Ind>, m: seq<u8>, last: int) {
    && (forall i :: 0 <= i < |inds| && inds[i].result == Ok ==>
         inds[i].data == m && IsMessage(m) && last == |Segment(m)| - 1)
    && (forall i, j :: 0 <= i < j < |inds| ==> inds[i].result != Ok || inds[j].result != Ok)
  }

  // ---------------------------------------------------------------------------------------------
  // An old reception
  // ---------------------------------------------------------------------------------------------

  ghost function CtsIn(fcQ: seq<Frame>): nat {
    if fcQ == [] then 0 else (if IsCts(fcQ[0]) then 1 else 0) + CtsIn(fcQ[1..])
  }

  /** The continue-to-sends queued or waiting for the driver. */
  ghost function Cts(rx: Rx, fcQ: seq<Frame>): nat {
    CtsIn(fcQ) + (if rx.fcPending && rx.fcStatus == FC_CTS then 1 else 0)
  }

  /** The consecutive frames an open reception still misses. */
  ghost function Missing(a: Asm): int
    requires a.Valid() && a.receiving
  {
    CfCount(a.length) - Stored(a)
  }

  /**
   * `cts` old continue-to-sends release enough frames of a new message to complete the open reception. The frames
   * before the sequence number it expects are lost, the others stored; without a block limit one release is enough,
   * otherwise the sender must reach the end of the receiver's block, or of the reception if that is nearer.
   */
  ghost predicate Enough(a: Asm, bs: u8, cts: nat)
    requires a.Valid() && a.receiving
  {
    if bs == 0 then cts > 0
    else Stored(a) % 16 + Min(bs - 1, a.blockCount + Missing(a) - 1) < bs * cts + a.blockCount
  }

  ghost predicate Harmless(s: S.Session, c: S.Setup)
    requires s.rx.Valid()
  {
    s.rx.asm.receiving ==> !Enough(s.rx.asm, c.rcfg.blockSize, Cts(s.rx, s.fcQ))
  }

  /** The consecutive frames that left the sender, and those it may still send before it has to wait. */
  ghost function Spent(tx: Tx, sent: nat): int {
    (if sent == 0 then 0 else sent - 1) + (if tx.state == SendCf then tx.blockSize - tx.blockCount else 0)
  }

  /** Every consecutive frame was released by an old continue-to-send. */
  ghost predicate Ledger(tx: Tx, rx: Rx, fcQ: seq<Frame>, sent: nat, bs: u8, cts: nat) {
    if bs == 0 then sent <= 1 && tx.state != SendCf && Cts(rx, fcQ) == 0
    else (tx.state == SendCf ==> tx.blockSize == bs) && Spent(tx, sent) + bs * Cts(rx, fcQ) <= bs * cts
  }

  /** The receiver is still in the reception it was in, and stored `more` frames of this message since. */
  ghost predicate Continued(a: Asm, was: Asm, bs: u8, last: int) {
    && a.Valid() && was.Valid() && a.receiving && was.receiving && a.length == was.length
    && AtBoundary(a, bs) && AtBoundary(was, bs)
    && var more := Stored(a) - Stored(was);
    && 0 <= more && (bs > 0 ==> a.blockCount == was.blockCount + more)
    && (if last == -1 then more == 0 else last >= 1 && Stored(was) % 16 + more <= last)
  }

  ghost predicate Old(t: Transfer, c: S.Setup)
    requires t.start.rx.Valid()
  {
    && Continued(t.s.rx.asm, t.start.rx.asm, c.rcfg.blockSize, t.last) && OwnFc(t.s.fcQ, c.rcfg)
    && Ledger(t.s.tx, t.s.rx, t.s.fcQ, t.sent, c.rcfg.blockSize, Cts(t.start.rx, t.start.fcQ))
  }

  /** The receiver is behind the frames of the message, or still in an old reception. */
  ghost predicate Caught(t: Transfer, c: S.Setup)
    requires t.start.rx.Valid()
  {
    Behind(t.s.rx.asm, t.msg, t.last) || Old(t, c)
  }

  ghost predicate Inv(t: Transfer, c: S.Setup) {
    && t.start.rx.Valid() && Harmless(t.start, c)
    && t.s.rx.Valid() && Queue(t.s.dataQ, t.at, t.msg, t.last, t.sent) && Sender(t.s.tx, t.msg, t.sent)
    && Caught(t, c)
    && |t.start.inds| <= |t.s.inds| && Told(t.s.inds[|t.start.inds|..], t.msg, t.last)
  }

  /** The next frame of a new message that an old reception takes is not its last one, and asks for no flow control. */
  lemma OldTakes(a: Asm, was: Asm, bs: u8, cts: nat, m: seq<u8>, last: int, j: nat, sent: nat)
    requires Continued(a, was, bs, last) && !Enough(was, bs, cts) && (bs == 0 ==> sent <= 1)
    requires IsMessage(m) && SF_MAX_DATA < |m| && last < j <= CfCount(|m|) && 1 <= j < sent
    requires bs > 0 ==> sent - 1 <= bs * cts
    ensures var o := AsmStep(a, bs, ConsecutiveFrame(m, j - 1), CAN_DL);
      if o.asm.receiving then Continued(o.asm, was, bs, j) && o.fc == None && o.inds == []
      else o.fc == None && |o.inds| == 1 && o.inds[0].result == ErrWrongSn
  {
    hide AsmStep, ConsecutiveFrame, CfCount, Stored;
    var f := ConsecutiveFrame(m, j - 1);
    CfHead(m, j - 1);
    if f[0] % 16 == a.sn {
      SameNumber(Stored(a), Stored(was), j - 1, last);
      assert Stored(was) % 16 + (Stored(a) - Stored(was)) <= j - 1;
      NotTheEnd(was, bs, cts, Stored(a) - Stored(was));
      MissesOne(a, was);
      StoreKeeps(a, bs, f, CAN_DL);
      IsoTpReceiver.StoredBytes(a, bs, f, CAN_DL);
      StoreCount(a, bs, f, CAN_DL);
    } else {
      WrongNumber(a, bs, f);
    }
  }

  lemma CfHead(m: seq<u8>, k: nat)
    requires SF_MAX_DATA < |m| && k < CfCount(|m|)
    ensures var f := ConsecutiveFrame(m, k); Pci(f) == 2 && f[0] % 16 == (k + 1) % 16
  {}

  lemma WrongNumber(a: Asm, bs: u8, f: Frame)
    requires a.Valid() && a.receiving && Pci(f) == 2 && f[0] % 16 != a.sn
    ensures AsmStep(a, bs, f, CAN_DL) == AsmOut(a.(receiving := false), [Abort(a, ErrWrongSn)], false, None)
  {}

  /** A frame with the expected number is at least as far as the frames stored before it require. */
  lemma SameNumber(stored: int, was: int, k: nat, last: int)
    requires 0 <= was <= stored && (k + 1) % 16 == (stored + 1) % 16 && last <= k
    requires if last == -1 then stored == was else last >= 1 && was % 16 + (stored - was) <= last
    ensures was % 16 + (stored - was) <= k
  {
    if last == -1 { assert k % 16 == was % 16; }
  }

  /** Without enough releases neither the block nor the reception is completed. */
  lemma NotTheEnd(was: Asm, bs: u8, cts: nat, more: nat)
    requires was.Valid() && was.receiving && bs > 0 && !Enough(was, bs, cts)
    requires Stored(was) % 16 + more + 1 <= bs * cts
    ensures was.blockCount + more + 1 < bs && more + 1 < Missing(was)
  {
    hide Stored, CfCount;
  }

  /** A reception that misses at least two frames stays open when it stores one. */
  lemma MissesOne(a: Asm, was: Asm)
    requires a.Valid() && a.receiving && was.Valid() && was.receiving && a.length == was.length && AtBoundary(a, 0)
    requires Stored(a) - Stored(was) + 1 < Missing(was)
    ensures a.offset + CF_MAX_DATA < a.length
  {}

  // ---------------------------------------------------------------------------------------------
  // One frame of the message
  // ---------------------------------------------------------------------------------------------

  /** A first frame or single frame reaches a receiver. */
  lemma FirstDelivered(a: Asm, bs: u8, m: seq<u8>)
    requires a.Valid() && IsMessage(m)
    ensures var o := AsmStep(a, bs, Segment(m)[0], CAN_DL);
      && Behind(o.asm, m, 0)
      && (forall i :: 0 <= i < |o.inds| && o.inds[i].result == Ok ==>
           o.inds[i].data == m && |m| <= SF_MAX_DATA && i == |o.inds| - 1)
  {
    if |m| <= SF_MAX_DATA { SingleDelivered(a, bs, m); } else { FirstOpens(a, bs, m); }
  }

  lemma FirstOpens(a: Asm, bs: u8, m: seq<u8>)
    requires a.Valid() && SF_MAX_DATA < |m| <= MAX_MESSAGE_LEN
    ensures var o := AsmStep(a, bs, FirstFrame(m), CAN_DL);
      && Behind(o.asm, m, 0)
      && (forall i :: 0 <= i < |o.inds| ==> o.inds[i].result != Ok)
  {
    assert FirstFrame(m)[2..] == m[..FF_DATA];
  }

  lemma SingleDelivered(a: Asm, bs: u8, m: seq<u8>)
    requires a.Valid() && 1 <= |m| <= SF_MAX_DATA
    ensures var o := AsmStep(a, bs, SingleFrame(m), CAN_DL);
      && (o.asm.receiving ==> o.asm == a && o.inds == [])
      && (forall i :: 0 <= i < |o.inds| && o.inds[i].result == Ok ==> o.inds[i].data == m && i == |o.inds| - 1)
      && (|m| <= |a.buf| ==> !o.asm.receiving)
  {
    var f := SingleFrame(m);
    assert f[0] % 16 == |m| && f[1..1 + |m|] == m;
  }

  /** `b` is the receiver `a` after storing the consecutive frame at position k + 1. */
  ghost predicate Stores(a: Asm, b: Asm, m: seq<u8>, k: nat)
    requires a.Valid() && a.receiving && a.length == |m| > SF_MAX_DATA && k < CfCount(|m|)
  {
    var n := Min(a.length - a.offset, CF_MAX_DATA);
    && b.Valid() && |b.buf| == |a.buf| && b.length == a.length && b.offset == a.offset + n
    && b.buf[..b.offset] == a.buf[..a.offset] + ConsecutiveFrame(m, k)[1..1 + n]
  }

  /** The consecutive frame at position k + 1 reaches a receiver: what is stored, for any k. */
  lemma CfTaken(a: Asm, bs: u8, m: seq<u8>, last: int, k: nat)
    requires a.Valid() && a.receiving && Behind(a, m, last) && k < CfCount(|m|)
    ensures var o := AsmStep(a, bs, ConsecutiveFrame(m, k), CAN_DL);
      || (!o.asm.receiving && |o.inds| == 1 && o.inds[0].result == ErrWrongSn)
      || (&& Stores(a, o.asm, m, k)
          && (o.asm.receiving ==>
               o.inds == [] && o.asm.offset == a.offset + CF_MAX_DATA && Stored(o.asm) == Stored(a) + 1)
          && (!o.asm.receiving ==>
               o.inds == [Ind(o.asm.buf[..a.length], Ok)] && o.asm.offset == a.length && Stored(a) + 1 == CfCount(|m|)))
  {}

  /** When the frame is the one due, its bytes continue the message. */
  lemma CfContinues(a: Asm, m: seq<u8>)
    requires a.Valid() && a.receiving && IsMessage(m) && SF_MAX_DATA < |m| == a.length
    requires a.offset == FF_DATA + CF_MAX_DATA * Stored(a) && a.buf[..a.offset] == m[..a.offset]
    ensures Stored(a) < CfCount(|m|)
    ensures var n := Min(a.length - a.offset, CF_MAX_DATA);
      a.buf[..a.offset] + ConsecutiveFrame(m, Stored(a))[1..1 + n] == m[..a.offset + n]
  {
    var n := Min(a.length - a.offset, CF_MAX_DATA);
    assert ConsecutiveFrame(m, Stored(a))[1..1 + n] == m[a.offset..a.offset + n];
  }

  lemma CfIgnored(a: Asm, bs: u8, m: seq<u8>, k: nat)
    requires a.Valid() && !a.receiving && SF_MAX_DATA < |m| && k < CfCount(|m|)
    ensures AsmStep(a, bs, ConsecutiveFrame(m, k), CAN_DL) == Ignore(a)
  {}

  lemma KeepsBehind(a: Asm, b: Asm, m: seq<u8>, last: int, k: nat)
    requires a.Valid() && a.receiving && Behind(a, m, last) && last <= k < CfCount(|m|) && Stores(a, b, m, k)
    requires b.receiving && Stored(b) == Stored(a) + 1 && b.offset == a.offset + CF_MAX_DATA
    ensures Behind(b, m, k + 1)
  {
    hide ConsecutiveFrame;
    if Stored(a) == k { CfContinues(a, m); }
  }

  lemma EndsExact(a: Asm, b: Asm, m: seq<u8>, last: int, k: nat)
    requires a.Valid() && a.receiving && Behind(a, m, last) && last <= k < CfCount(|m|) && Stores(a, b, m, k)
    requires b.offset == a.length && Stored(a) + 1 == CfCount(|m|)
    ensures b.buf[..a.length] == m && k + 1 == CfCount(|m|)
  {
    hide ConsecutiveFrame;
    CfContinues(a, m);
    assert m[..|m|] == m;
  }

  lemma ClosedBehind(a: Asm, m: seq<u8>, last: int)
    requires !a.receiving
    ensures Behind(a, m, last)
  {}

  /** The frame at position j reaches a receiver that saw frames up to position `last` go by. */
  lemma CfDelivered(a: Asm, bs: u8, m: seq<u8>, last: int, j: nat)
    requires a.Valid() && IsMessage(m) && Behind(a, m, last) && last < j < |Segment(m)| && 1 <= j
    ensures var o := AsmStep(a, bs, Segment(m)[j], CAN_DL);
      && Behind(o.asm, m, j)
      && (forall i :: 0 <= i < |o.inds| && o.inds[i].result == Ok ==>
           o.inds[i].data == m && j == |Segment(m)| - 1 && i == |o.inds| - 1)
  {
    hide Segment, ConsecutiveFrame, AsmStep, Behind, Stores;
    IsoTpSender.SegmentLength(m);
    SegmentAt(m, j);
    var f := ConsecutiveFrame(m, j - 1);
    if a.receiving {
      BehindLength(a, m, last);
      CfTaken(a, bs, m, last, j - 1);
      var o := AsmStep(a, bs, f, CAN_DL);
      if o.asm.receiving {
        KeepsBehind(a, o.asm, m, last, j - 1);
      } else {
        ClosedBehind(o.asm, m, j);
        if o.inds[0].result == Ok { EndsExact(a, o.asm, m, last, j - 1); }
      }
    } else {
      CfIgnored(a, bs, m, j - 1);
      ClosedBehind(a, m, j);
    }
  }

  lemma SegmentAt(m: seq<u8>, j: nat)
    requires IsMessage(m) && 1 <= j < |Segment(m)|
    ensures SF_MAX_DATA < |m| && j - 1 < CfCount(|m|) && Segment(m)[j] == ConsecutiveFrame(m, j - 1)
  {
    hide ConsecutiveFrame, FirstFrame, SingleFrame;
  }

  lemma BehindLength(a: Asm, m: seq<u8>, last: int)
    requires Behind(a, m, last) && a.receiving
    ensures a.length == |m| > SF_MAX_DATA
  {}

  lemma ToldAppend(old_: seq<Ind>, new_: seq<Ind>, m: seq<u8>, last: int, j: int)
    requires IsMessage(m) && Told(old_, m, last) && last < j < |Segment(m)|
    requires forall i :: 0 <= i < |new_| && new_[i].result == Ok ==>
      new_[i].data == m && j == |Segment(m)| - 1 && i == |new_| - 1
    ensures Told(old_ + new_, m, j)
  {
    hide Segment;
  }

  lemma ToldErrors(old_: seq<Ind>, new_: seq<Ind>, m: seq<u8>, last: int)
    requires Told(old_, m, last) && forall i :: 0 <= i < |new_| ==> new_[i].result != Ok
    ensures Told(old_ + new_, m, last)
  {
    hide Segment;
  }

  /** Indications made later are appended to the new ones. */
  lemma NewInds(inds: seq<Ind>, more: seq<Ind>, base: nat)
    requires base <= |inds|
    ensures (inds + more)[base..] == inds[base..] + more
  {}

  lemma HeadDelivered(t: Transfer, c: S.Setup)
    requires Inv(t, c) && t.s.dataQ != []
    ensures var bs := c.rcfg.blockSize; var o := AsmStep(t.s.rx.asm, bs, t.s.dataQ[0], CAN_DL); var j := t.at[0];
      && (Behind(o.asm, t.msg, j) || (Old(t, c) && Continued(o.asm, t.start.rx.asm, bs, j) && o.fc == None))
      && Told((t.s.inds + o.inds)[|t.start.inds|..], t.msg, j)
      && Queue(t.s.dataQ[1..], t.at[1..], t.msg, j, t.sent)
  {
    hide AsmStep, Segment, Told, Sender, Cts, Ledger, Behind, Continued;
    var j, bs := t.at[0], c.rcfg.blockSize;
    var o := AsmStep(t.s.rx.asm, bs, t.s.dataQ[0], CAN_DL);
    IsoTpSender.SegmentLength(t.msg);
    if j == 0 { FirstDelivered(t.s.rx.asm, bs, t.msg); }
    else if Behind(t.s.rx.asm, t.msg, t.last) { CfDelivered(t.s.rx.asm, bs, t.msg, t.last, j); }
    else {
      OldHead(t, c);
      if !o.asm.receiving { ClosedBehind(o.asm, t.msg, j); }
    }
    NewInds(t.s.inds, o.inds, |t.start.inds|);
    ToldAppend(t.s.inds[|t.start.inds|..], o.inds, t.msg, t.last, j);
  }

  lemma OldHead(t: Transfer, c: S.Setup)
    requires Inv(t, c) && t.s.dataQ != [] && Old(t, c) && t.at[0] >= 1
    ensures var bs := c.rcfg.blockSize; var o := AsmStep(t.s.rx.asm, bs, t.s.dataQ[0], CAN_DL);
      && o.fc == None && (forall i :: 0 <= i < |o.inds| ==> o.inds[i].result != Ok)
      && (o.asm.receiving ==> Continued(o.asm, t.start.rx.asm, bs, t.at[0]))
  {
    hide AsmStep, Segment, Told, Cts, Behind, Enough, Tx.Valid, Tx.Message, Tx.Emitted;
    var j := t.at[0];
    SegmentAt(t.msg, j);
    LedgerBounds(t.s.tx, t.s.rx, t.s.fcQ, t.sent, c.rcfg.blockSize, Cts(t.start.rx, t.start.fcQ));
    IsoTpSender.SegmentLength(t.msg);
    hide Ledger, Continued;
    WasReceiving(t.s.rx.asm, t.start.rx.asm, c.rcfg.blockSize, t.last);
    OldTakes(t.s.rx.asm, t.start.rx.asm, c.rcfg.blockSize, Cts(t.start.rx, t.start.fcQ), t.msg, t.last, j, t.sent);
  }

  lemma WasReceiving(a: Asm, was: Asm, bs: u8, last: int)
    requires Continued(a, was, bs, last)
    ensures was.Valid() && was.receiving
  {}

  lemma LedgerBounds(tx: Tx, rx: Rx, fcQ: seq<Frame>, sent: nat, bs: u8, cts: nat)
    requires tx.Valid() && Ledger(tx, rx, fcQ, sent, bs, cts)
    ensures bs == 0 ==> sent <= 1
    ensures bs > 0 && sent > 0 ==> sent - 1 <= bs * cts
  {
    hide Cts;
    assert bs * Cts(rx, fcQ) >= 0;
  }

  lemma DeliveryStep(t: Transfer, c: S.Setup, now: u32, accept: bool)
    requires Inv(t, c)
    ensures Inv(Do(t, c, Step(S.DeliverData(now, accept))), c)
  {
    hide AsmStep, Segment, Behind, Told, Queue, Sender, Continued, Enough;
    QueueEnd(t, c);
    if t.s.dataQ != [] {
      HeadDelivered(t, c);
      IsoTpReceiver.DataOut(t.s.rx, c.rcfg, t.s.dataQ[0], CAN_DL, now, accept);
      FirstPosition(t, c);
      var o := AsmStep(t.s.rx.asm, c.rcfg.blockSize, t.s.dataQ[0], CAN_DL);
      if o.fc == None { assert t.s.fcQ + [] == t.s.fcQ; }
    }
  }

  lemma FirstPosition(t: Transfer, c: S.Setup)
    requires Inv(t, c) && t.s.dataQ != []
    ensures t.at != [] && t.at[0] > -1
  {
    hide Segment, Told, Sender, Caught;
  }

  lemma QueueAppend(q: seq<Frame>, at: seq<nat>, m: seq<u8>, last: int, sent: nat)
    requires Queue(q, at, m, last, sent) && sent < |Segment(m)|
    ensures Queue(q + [Segment(m)[sent]], at + [sent], m, last, sent + 1)
  {
    hide Segment;
  }

  lemma QueueEnd(t: Transfer, c: S.Setup)
    requires Inv(t, c)
    ensures |t.at| == |t.s.dataQ| && t.sent <= |Segment(t.msg)|
  {
    hide Segment, Behind, Told, Sender, Old;
  }

  lemma EmptyQueue(m: seq<u8>)
    requires IsMessage(m)
    ensures Queue([], [], m, -1, 0) && Told([], m, -1)
  {}

  lemma SendStep(t: Transfer, c: S.Setup, act: TxAct)
    requires Inv(t, c) && !act.Transmit? && !act.Fc?
    ensures Inv(Do(t, c, Step(S.Send(act))), c)
  {
    hide TxStep, Segment, Behind, Told, Queue, Cts, Ledger, Continued, Enough;
    var o := TxStep(t.s.tx, c.nBs, act);
    QueueEnd(t, c);
    if Old(t, c) {
      LedgerSend(t.s.tx, c.nBs, act, t.s.rx, t.s.fcQ, t.sent, c.rcfg.blockSize, Cts(t.start.rx, t.start.fcQ));
    }
    if t.s.tx.Busy() { IsoTpSender.BusyStep(t.s.tx, c.nBs, act); } else { IsoTpSender.IdleStep(t.s.tx, c.nBs, act); }
    if o.sent == [] { assert t.s.dataQ + [] == t.s.dataQ; }
    else {
      assert t.at + seq(1, i => t.sent) == t.at + [t.sent];
      QueueAppend(t.s.dataQ, t.at, t.msg, t.last, t.sent);
    }
  }

  /** A consecutive frame uses up one of those the sender may still send. */
  lemma LedgerSend(tx: Tx, nBs: u16, act: TxAct, rx: Rx, fcQ: seq<Frame>, sent: nat, bs: u8, cts: nat)
    requires tx.Valid() && !act.Transmit? && !act.Fc? && Ledger(tx, rx, fcQ, sent, bs, cts)
    requires tx.Busy() ==> tx.Emitted() == sent
    ensures var o := TxStep(tx, nBs, act); Ledger(o.tx, rx, fcQ, sent + |o.sent|, bs, cts)
  {
    hide Cts, TxCf, TxFirst;
    if act.Cf? && tx.state == SendCf { CfSpent(tx, act.check, act.accept, act.record, act.block); }
    if act.FirstRetry? && tx.state == SendFirst { FirstSpent(tx, act.accept, act.after); }
  }

  lemma FirstSpent(tx: Tx, accept: bool, after: u32)
    requires tx.Valid() && tx.state == SendFirst
    ensures var o := TxFirst(tx, accept, after); o.tx.state != SendCf && |o.sent| <= 1
  {}

  lemma CfSpent(tx: Tx, check: u32, accept: bool, record: u32, block: u32)
    requires tx.Valid() && tx.state == SendCf
    ensures var o := TxCf(tx, check, accept, record, block);
      if CfBlocked(tx, check, accept) then o == TxOut(tx, [], [])
      else
        && |o.sent| == 1
        && (o.tx.state == SendCf ==> o.tx.blockSize == tx.blockSize)
        && (o.tx.state == SendCf && tx.blockSize > 0 ==> o.tx.blockCount == tx.blockCount + 1)
  {}

  lemma FcSilent(tx: Tx, nBs: u16, act: TxAct)
    requires tx.Valid() && act.Fc?
    ensures TxStep(tx, nBs, act).sent == []
  {}

  lemma FcStep(t: Transfer, c: S.Setup, now: u32)
    requires Inv(t, c)
    ensures Inv(Do(t, c, Step(S.DeliverFc(now))), c)
  {
    hide Segment, Behind, Told, Queue, TxStep, Cts, Ledger, Continued, Enough, FcFrame;
    if t.s.fcQ != [] {
      var act := Fc(t.s.fcQ[0], CAN_DL, now);
      FcSilent(t.s.tx, c.nBs, act);
      if Old(t, c) {
        LedgerFc(t.s.tx, c, t.s.rx, t.s.fcQ, t.sent, Cts(t.start.rx, t.start.fcQ), now);
      }
      if t.s.tx.Busy() { IsoTpSender.BusyStep(t.s.tx, c.nBs, act); } else { IsoTpSender.IdleStep(t.s.tx, c.nBs, act); }
    }
  }

  /** A continue-to-send that is taken releases one block. */
  lemma LedgerFc(tx: Tx, c: S.Setup, rx: Rx, fcQ: seq<Frame>, sent: nat, cts: nat, now: u32)
    requires tx.Valid() && fcQ != [] && OwnFc(fcQ, c.rcfg) && Ledger(tx, rx, fcQ, sent, c.rcfg.blockSize, cts)
    ensures Ledger(TxStep(tx, c.nBs, Fc(fcQ[0], CAN_DL, now)).tx, rx, fcQ[1..], sent, c.rcfg.blockSize, cts)
  {
    var bs := c.rcfg.blockSize;
    OneLess(bs, Cts(rx, fcQ), Cts(rx, fcQ[1..]));
  }

  lemma OneLess(bs: nat, n: nat, k: nat)
    requires k <= n <= k + 1
    ensures bs * n == bs * k + (if n == k then 0 else bs)
  {}

  lemma PollStep(t: Transfer, c: S.Setup, act: RxAct)
    requires Inv(t, c) && !act.Data?
    ensures Inv(Do(t, c, Step(S.Poll(act))), c)
  {
    hide Segment, Sender, Queue, Told, Cts, Enough, FcFrame;
    var o := RxStep(t.s.rx, c.rcfg, act);
    SameCts(t.s.rx, c.rcfg, act, t.s.fcQ);
    NewInds(t.s.inds, o.inds, |t.start.inds|);
    ToldErrors(t.s.inds[|t.start.inds|..], o.inds, t.msg, t.last);
  }

  lemma {:induction false} CtsAppend(q: seq<Frame>, f: Frame)
    ensures CtsIn(q + [f]) == CtsIn(q) + (if IsCts(f) then 1 else 0)
    decreases |q|
  {
    if q == [] {
      assert q + [f] == [f];
      assert [f][1..] == [];
    } else {
      hide IsCts;
      assert (q + [f])[1..] == q[1..] + [f];
      CtsAppend(q[1..], f);
    }
  }

  /** The periodic call makes no continue-to-send out of nothing, and loses none. */
  lemma SameCts(rx: Rx, cfg: Cfg, act: RxAct, fcQ: seq<Frame>)
    requires rx.Valid() && !act.Data?
    ensures var o := RxStep(rx, cfg, act); Cts(o.rx, fcQ + o.sent) == Cts(rx, fcQ)
  {
    var o := RxStep(rx, cfg, act);
    if o.sent == [] { assert fcQ + [] == fcQ; }
    else { CtsAppend(fcQ, o.sent[0]); }
  }

  lemma DropStep(t: Transfer, c: S.Setup, i: nat)
    requires Inv(t, c)
    ensures Inv(Do(t, c, DropData(i)), c)
  {
    hide Segment, Sender, Behind, Told, Cts, Ledger, Continued, Enough;
    if i < |t.at| { QueueDrop(t.s.dataQ, t.at, t.msg, t.last, t.sent, i); }
    hide Queue;
  }

  lemma QueueDrop(q: seq<Frame>, at: seq<nat>, m: seq<u8>, last: int, sent: nat, i: nat)
    requires Queue(q, at, m, last, sent) && i < |at|
    ensures Queue(q[..i] + q[i + 1..], at[..i] + at[i + 1..], m, last, sent)
  {
    hide Segment;
  }

  lemma {:induction false} InvStep(t: Transfer, c: S.Setup, act: Act)
    requires Inv(t, c) && SameTransfer(act)
    ensures Inv(Do(t, c, act), c)
  {
    match act
    case Step(a) =>
      if a.Send? { if !a.tact.Fc? { SendStep(t, c, a.tact); } }
      else if a.Poll? { if !a.ract.Data? { PollStep(t, c, a.ract); } }
      else if a.DeliverData? { DeliveryStep(t, c, a.now, a.accept); }
      else { FcStep(t, c, a.now); }
    case DropData(i) => DropStep(t, c, i);
    case DropFc(i) => DropFcStep(t, c, i);
  }

  lemma {:induction false} CtsLost(q: seq<Frame>, i: nat)
    ensures CtsIn(Remove(q, i)) <= CtsIn(q)
    decreases |q|
  {
    hide IsCts;
    if 0 < i < |q| {
      assert Remove(q, i)[1..] == Remove(q[1..], i - 1);
      CtsLost(q[1..], i - 1);
    } else if i < |q| {
      assert Remove(q, i) == q[1..];
    }
  }

  lemma DropFcStep(t: Transfer, c: S.Setup, i: nat)
    requires Inv(t, c)
    ensures Inv(Do(t, c, DropFc(i)), c)
  {
    hide Segment, Sender, Behind, Told, Queue, Continued, Enough, CtsIn, FcFrame;
    var q := Remove(t.s.fcQ, i);
    CtsLost(t.s.fcQ, i);
    MulMono(c.rcfg.blockSize, Cts(t.s.rx, q), Cts(t.s.rx, t.s.fcQ));
    forall k | 0 <= k < |q| ensures q[k] in t.s.fcQ { if i < |t.s.fcQ| && k >= i { assert q[k] == t.s.fcQ[k + 1]; } }
  }

  lemma MulMono(b: nat, x: nat, y: nat)
    requires x <= y
    ensures b * x <= b * y
  {}

  lemma {:induction false} RunInv(t: Transfer, c: S.Setup, acts: seq<Act>)
    requires Inv(t, c) && forall i :: 0 <= i < |acts| ==> SameTransfer(acts[i])
    ensures Inv(Run(t, c, acts), c)
    decreases |acts|
  {
    hide Do, Queue, Behind, Told, Old;
    if acts != [] {
      RunInv(t, c, acts[..|acts| - 1]);
      InvStep(Run(t, c, acts[..|acts| - 1]), c, acts[|acts| - 1]);
    }
  }

  /**
   * The moment before Transmit, in any state two links can get into: an idle sender and no data frame in flight. A
   * reception may still be open, but then the old continue-to-sends must not suffice to complete it.
   */
  ghost predicate Fresh(s: S.Session, c: S.Setup) {
    Reachable(s, c) && !s.tx.Busy() && s.dataQ == [] && Harmless(s, c)
  }

  ghost function Begin(s: S.Session, c: S.Setup, act: TxAct): (t: Transfer)
    requires s.tx.Valid() && s.rx.Valid() && act.Transmit?
    ensures t.s.tx.Valid() && t.s.rx.Valid()
  {
    Do(Transfer(s, act.msg, s, 0, [], -1), c, Step(S.Send(act)))
  }

  lemma BeginInv(s: S.Session, c: S.Setup, act: TxAct)
    requires Fresh(s, c) && act.Transmit? && TransmitResult(s.tx, act.msg) == Ok
    ensures Inv(Begin(s, c, act), c)
  {
    hide TxStep, Segment, Told, Queue, Cts, Enough, Announced, FcFrame;
    var t := Transfer(s, act.msg, s, 0, [], -1);
    IsoTpSender.BusyStep(s.tx, c.nBs, act);
    var o := TxStep(s.tx, c.nBs, act);
    TransmitNotCf(s.tx, c.nBs, act);
    EmptyQueue(act.msg);
    if s.rx.asm.receiving { NothingSpent(s, c, o.tx, |o.sent|); }
    assert s.inds[|s.inds|..] == [];
    if o.sent == [] { assert s.dataQ + [] == s.dataQ; }
    else {
      assert t.at + seq(1, i => t.sent) == [] + [t.sent];
      QueueAppend(t.s.dataQ, t.at, t.msg, t.last, t.sent);
    }
  }

  lemma NothingSpent(s: S.Session, c: S.Setup, tx: Tx, sent: nat)
    requires s.rx.Valid() && Harmless(s, c) && s.rx.asm.receiving && tx.state != SendCf && sent <= 1
    ensures Ledger(tx, s.rx, s.fcQ, sent, c.rcfg.blockSize, Cts(s.rx, s.fcQ))
  {
    hide Cts;
  }

  lemma TransmitNotCf(tx: Tx, nBs: u16, act: TxAct)
    requires tx.Valid() && act.Transmit? && !tx.Busy()
    ensures TxStep(tx, nBs, act).tx.state != SendCf && |TxStep(tx, nBs, act).sent| <= 1
  {}

  /**
   * Whatever is lost in either direction and whichever timeouts fire: if the receiver indicates Ok, the
   * bytes and the length are those of the transmitted message, and it does so at most once. This holds for
   * every transfer of a conversation that starts in a `Fresh` state, whatever happened before.
   */
  lemma OnlyTheMessage(s: S.Session, c: S.Setup, act: TxAct, acts: seq<Act>)
    requires Fresh(s, c) && act.Transmit? && TransmitResult(s.tx, act.msg) == Ok
    requires forall i :: 0 <= i < |acts| ==> SameTransfer(acts[i])
    ensures var r := Conversation(Happen(s, c, Step(S.Send(act))), c, acts);
      && |s.inds| <= |r.inds|
      && var new_ := r.inds[|s.inds|..];
      && (forall i :: 0 <= i < |new_| && new_[i].result == Ok ==> new_[i].data == act.msg)
      && (forall i, j :: 0 <= i < j < |new_| ==> new_[i].result != Ok || new_[j].result != Ok)
  {
    BeginInv(s, c, act);
    RunInv(Begin(s, c, act), c, acts);
    RunMsg(Begin(s, c, act), c, acts);
    assert Begin(s, c, act).start == s && Begin(s, c, act).s == Happen(s, c, Step(S.Send(act)));
    hide Run, Begin, Queue, Caught, Sender, Harmless, Conversation, Happen;
  }

  /** The bookkeeping changes nothing. */
  lemma {:induction false} RunMsg(t: Transfer, c: S.Setup, acts: seq<Act>)
    requires t.s.tx.Valid() && t.s.rx.Valid()
    ensures var r := Run(t, c, acts); r.msg == t.msg && r.start == t.start && r.s == Conversation(t.s, c, acts)
    decreases |acts|
  {
    hide S.Step;
    if acts != [] { RunMsg(t, c, acts[..|acts| - 1]); }
  }
}
