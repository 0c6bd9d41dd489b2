/**
 * Exactly when losses can mix two transfers.
 *
 * `IsoTpLossy.OnlyTheMessage` needs that the old continue-to-sends cannot release enough frames to complete an open
 * reception. Here the condition is shown to be exact: in every other state some message and some losses make the
 * receiver indicate Ok for bytes that were never sent as one message.
 */
module IsoTpMixing {
  import opened Words
  import opened IsoTpModel
  import IsoTpReceiver
  import IsoTpSender
  import S = IsoTpSession
  import opened IsoTpChannel
  import opened IsoTpLossy

  /** One transfer of `act.msg` after which the receiver has indicated Ok for other bytes. */
  ghost predicate Confuses(s: S.Session, c: S.Setup, act: TxAct, acts: seq<Act>)
    requires s.tx.Valid() && s.rx.Valid()
  {
    && act.Transmit? && TransmitResult(s.tx, act.msg) == Ok && AllSame(acts)
    && var r := Conversation(Happen(s, c, Step(S.Send(act))), c, acts);
    && exists i :: |s.inds| <= i < |r.inds| && r.inds[i].result == Ok && r.inds[i].data != act.msg
  }

  ghost predicate AllSame(acts: seq<Act>) { forall i :: 0 <= i < |acts| ==> SameTransfer(acts[i]) }

  lemma {:induction false} Then(s: S.Session, c: S.Setup, a: seq<Act>, b: seq<Act>)
    requires s.tx.Valid() && s.rx.Valid()
    ensures Conversation(s, c, a + b) == Conversation(Conversation(s, c, a), c, b)
    decreases |b|
  {
    hide Happen;
    if b == [] { assert a + b == a; }
    else {
      var n := |b| - 1;
      Then(s, c, a, b[..n]);
      assert (a + b)[..|a + b| - 1] == a + b[..n];
    }
  }

  lemma One(s: S.Session, c: S.Setup, act: Act)
    requires s.tx.Valid() && s.rx.Valid()
    ensures Conversation(s, c, [act]) == Happen(s, c, act)
  {
    hide Happen;
    assert [act][..0] == [];
  }

  // ---------------------------------------------------------------------------------------------
  // The sender, released by old continue-to-sends
  // ---------------------------------------------------------------------------------------------

  /** Only continue-to-sends are left in the flow control channel, and none waits for the driver. */
  ghost predicate OnlyCts(s: S.Session, cfg: Cfg) {
    !s.rx.fcPending && forall i :: 0 <= i < |s.fcQ| ==> s.fcQ[i] == FcFrame(FC_CTS, cfg.blockSize, cfg.stMin)
  }

  /** The consecutive frame j + 1 of m is due, and no data frame is in flight. */
  ghost predicate Due(s: S.Session, c: S.Setup, m: seq<u8>, j: nat) {
    && s.tx.Valid() && s.rx.Valid() && s.dataQ == [] && OnlyCts(s, c.rcfg)
    && IsMessage(m) && SF_MAX_DATA < |m| && j < CfCount(|m|)
    && s.tx.Streaming() && (s.tx.state == SendCf ==> s.tx.blockSize == c.rcfg.blockSize)
    && s.tx.Message() == m && s.tx.Emitted() == 1 + j
  }

  /** How many consecutive frames may still be sent; without a block limit only whether any may. */
  ghost function Stock(s: S.Session, bs: u8): nat
    requires s.tx.Valid() && (s.tx.state == SendCf ==> s.tx.blockSize == bs)
  {
    if bs == 0 then (if s.tx.state == SendCf || s.fcQ != [] then 1 else 0)
    else (if s.tx.state == SendCf then bs - s.tx.blockCount else 0) + bs * |s.fcQ|
  }

  /** A continue-to-send is taken. */
  lemma Release(s: S.Session, c: S.Setup, m: seq<u8>, j: nat)
    requires Due(s, c, m, j) && s.tx.state == WaitFc && Stock(s, c.rcfg.blockSize) > 0
    ensures var r := Happen(s, c, Step(S.DeliverFc(0)));
      && Due(r, c, m, j) && r.tx.state == SendCf && r.rx == s.rx && r.inds == s.inds
      && Stock(r, c.rcfg.blockSize) == Stock(s, c.rcfg.blockSize)
  {
    assert s.fcQ != [];
    Pay(c.rcfg.blockSize, |s.fcQ|);
  }

  lemma Pay(b: nat, n: nat)
    requires n > 0
    ensures b * n == b * (n - 1) + b
  {}

  /** A clock reading at which the separation time is over. */
  ghost function Late(tx: Tx): u32 { (tx.lastCf + tx.stMin + 1) % TWO32 }

  ghost function SendOne(s: S.Session): Act { Step(S.Send(Cf(Late(s.tx), true, 0, 0))) }

  lemma LateEnough(tx: Tx)
    requires tx.Valid()
    ensures !CfBlocked(tx, Late(tx), true)
  {}

  /** One more consecutive frame is on the channel. */
  lemma OneSent(s: S.Session, c: S.Setup, m: seq<u8>, j: nat)
    requires Due(s, c, m, j) && s.tx.state == SendCf
    ensures var r := Happen(s, c, SendOne(s));
      && r.dataQ == [ConsecutiveFrame(m, j)] && r.rx == s.rx && r.inds == s.inds && r.fcQ == s.fcQ
      && (j + 1 < CfCount(|m|) ==> AfterOne(s, r, c, m, j))
  {
    hide Segment, ConsecutiveFrame, TxCf;
    LateEnough(s.tx);
    IsoTpSender.CfStep(s.tx, Late(s.tx), true, 0, 0);
    CfSpent(s.tx, Late(s.tx), true, 0, 0);
    Unlimited(s.tx, Late(s.tx));
    IsoTpSender.SegmentLength(m);
    SegmentAt(m, j + 1);
    assert [] + [ConsecutiveFrame(m, j)] == [ConsecutiveFrame(m, j)];
  }

  ghost predicate AfterOne(s: S.Session, r: S.Session, c: S.Setup, m: seq<u8>, j: nat)
    requires Due(s, c, m, j) && j + 1 < CfCount(|m|)
  {
    && Due(r.(dataQ := []), c, m, j + 1)
    && Stock(r, c.rcfg.blockSize) == Stock(s, c.rcfg.blockSize) - (if c.rcfg.blockSize == 0 then 0 else 1)
  }

  lemma Unlimited(tx: Tx, check: u32)
    requires tx.Valid() && tx.state == SendCf && !CfBlocked(tx, check, true)
    ensures var t := TxCf(tx, check, true, 0, 0).tx;
      && (tx.blockSize == 0 && t.Busy() ==> t.state == SendCf)
      && (t.state == WaitFc ==> tx.blockSize == tx.blockCount + 1)
      && t.state != SendFirst
  {}

  /** The frame that is due gets on the channel. */
  lemma SendNext(s: S.Session, c: S.Setup, m: seq<u8>, j: nat) returns (acts: seq<Act>)
    requires Due(s, c, m, j) && Stock(s, c.rcfg.blockSize) > 0
    ensures AllSame(acts)
    ensures var r := Conversation(s, c, acts);
      && r.dataQ == [ConsecutiveFrame(m, j)] && r.rx == s.rx && r.inds == s.inds && OnlyCts(r, c.rcfg)
      && (j + 1 < CfCount(|m|) ==> AfterOne(s, r, c, m, j))
  {
    hide Happen, Conversation, ConsecutiveFrame, CfCount, Stock;
    var u, fc := s, Step(S.DeliverFc(0));
    if s.tx.state == WaitFc {
      Release(s, c, m, j);
      u := Happen(s, c, fc);
    }
    OneSent(u, c, m, j);
    One(u, c, SendOne(u));
    acts := [SendOne(u)];
    if s.tx.state == WaitFc {
      One(s, c, fc);
      Then(s, c, [fc], acts);
      acts := [fc] + acts;
    }
  }

  /** The frames before the expected sequence number are lost. */
  lemma {:induction false} Skip(s: S.Session, c: S.Setup, m: seq<u8>, j: nat, k: nat) returns (acts: seq<Act>)
    requires Due(s, c, m, j) && j <= k < CfCount(|m|)
    requires if c.rcfg.blockSize == 0 then Stock(s, 0) > 0 else Stock(s, c.rcfg.blockSize) >= k - j
    ensures AllSame(acts)
    ensures var bs := c.rcfg.blockSize; var r := Conversation(s, c, acts);
      && Due(r, c, m, k) && r.rx == s.rx && r.inds == s.inds
      && Stock(r, bs) == Stock(s, bs) - (if bs == 0 then 0 else k - j)
    decreases k - j
  {
    hide Happen, ConsecutiveFrame, CfCount, Stock, OnlyCts;
    acts := [];
    if j < k {
      var next := SendNext(s, c, m, j);
      var u := Conversation(s, c, next);
      One(u, c, DropData(0));
      Then(s, c, next, [DropData(0)]);
      Dropped(u, c);
      StockData(u, c.rcfg.blockSize);
      var rest := Skip(Happen(u, c, DropData(0)), c, m, j + 1, k);
      Then(s, c, next + [DropData(0)], rest);
      acts := next + [DropData(0)] + rest;
    }
  }

  lemma Dropped(s: S.Session, c: S.Setup)
    requires s.tx.Valid() && s.rx.Valid() && |s.dataQ| == 1
    ensures Happen(s, c, DropData(0)) == s.(dataQ := [])
  {}

  lemma StockData(s: S.Session, bs: u8)
    requires s.tx.Valid() && (s.tx.state == SendCf ==> s.tx.blockSize == bs)
    ensures Stock(s.(dataQ := []), bs) == Stock(s, bs)
  {}

  // ---------------------------------------------------------------------------------------------
  // The receiver, completing an old reception
  // ---------------------------------------------------------------------------------------------

  /** The open reception at a position, with its first byte. */
  ghost predicate Open(a: Asm, bs: u8, length: nat, first: u8) {
    a.Valid() && a.receiving && a.length == length && AtBoundary(a, bs) && a.buf[0] == first
  }

  /** One Ok indication that begins with a byte of the old message. */
  ghost predicate Lies(inds: seq<Ind>, first: u8) {
    |inds| == 1 && inds[0].result == Ok && inds[0].data != [] && inds[0].data[0] == first
  }

  /** A consecutive frame of m with the expected number continues any reception of that length. */
  lemma OneTaken(a: Asm, bs: u8, m: seq<u8>, j: nat, first: u8)
    requires IsMessage(m) && SF_MAX_DATA < |m| && j < CfCount(|m|) && Open(a, bs, |m|, first)
    requires j % 16 == Stored(a) % 16
    ensures var o := AsmStep(a, bs, ConsecutiveFrame(m, j), CAN_DL);
      if o.asm.receiving then
        && Open(o.asm, bs, |m|, first) && Stored(o.asm) == Stored(a) + 1 && o.inds == []
        && (if bs == 0 then o.fc == None
            else if a.blockCount + 1 == bs then o.asm.blockCount == 0 && o.fc == Some(FC_CTS)
            else o.asm.blockCount == a.blockCount + 1 && o.fc == None)
      else Lies(o.inds, first) && o.fc == None
  {
    hide ConsecutiveFrame, CfCount, AsmStep, Segment, Stored;
    CfHead(m, j);
    assert (j + 1) % 16 == (Stored(a) + 1) % 16;
    var f := ConsecutiveFrame(m, j);
    IsoTpReceiver.StoredBytes(a, bs, f, CAN_DL);
    StoreKeeps(a, bs, f, CAN_DL);
    StoreCount(a, bs, f, CAN_DL);
    var o := AsmStep(a, bs, f, CAN_DL);
    FirstByteStays(a.buf, o.asm.buf, a.offset, o.asm.offset, f[1..1 + Min(a.length - a.offset, CF_MAX_DATA)]);
  }

  lemma FirstByteStays(b: seq<u8>, next: seq<u8>, n: nat, k: nat, more: seq<u8>)
    requires 0 < n <= |b| && n <= k <= |next| && next[..k] == b[..n] + more
    ensures next[0] == b[0]
  {
    assert next[..k][0] == next[0];
  }

  lemma OneDelivered(s: S.Session, c: S.Setup, f: Frame)
    requires s.tx.Valid() && s.rx.Valid() && s.dataQ == [f] && OnlyCts(s, c.rcfg)
    requires var fc := AsmStep(s.rx.asm, c.rcfg.blockSize, f, CAN_DL).fc; fc == None || fc == Some(FC_CTS)
    ensures var r := Happen(s, c, Step(S.DeliverData(0, true)));
      var o := AsmStep(s.rx.asm, c.rcfg.blockSize, f, CAN_DL);
      && r.tx == s.tx && r.dataQ == [] && r.rx.asm == o.asm && r.inds == s.inds + o.inds && OnlyCts(r, c.rcfg)
      && |r.fcQ| == |s.fcQ| + (if o.fc.Some? then 1 else 0)
  {
    hide AsmStep, FcFrame;
  }

  /** The stock lasts: up to the end of the block, or of the reception if that is nearer. */
  ghost predicate Lasts(s: S.Session, bs: u8)
    requires s.tx.Valid() && (s.tx.state == SendCf ==> s.tx.blockSize == bs) && s.rx.Valid() && s.rx.asm.receiving
  {
    if bs == 0 then Stock(s, bs) > 0
    else Min(bs - 1, s.rx.asm.blockCount + Missing(s.rx.asm) - 1) < Stock(s, bs) + s.rx.asm.blockCount
  }

  lemma SomeStock(s: S.Session, bs: u8)
    requires s.tx.Valid() && (s.tx.state == SendCf ==> s.tx.blockSize == bs) && s.rx.Valid() && s.rx.asm.receiving
    requires AtBoundary(s.rx.asm, bs) && Lasts(s, bs)
    ensures Stock(s, bs) > 0
  {
    hide Stock;
    BeforeEnd(s.rx.asm, bs);
  }

  /** An open reception misses at least one consecutive frame. */
  lemma BeforeEnd(a: Asm, bs: u8)
    requires a.Valid() && a.receiving && AtBoundary(a, bs)
    ensures 0 <= Stored(a) < CfCount(a.length)
  {}

  lemma StillLasts(s: S.Session, v: S.Session, bs: u8)
    requires s.tx.Valid() && (s.tx.state == SendCf ==> s.tx.blockSize == bs) && s.rx.Valid() && s.rx.asm.receiving
    requires v.tx.Valid() && (v.tx.state == SendCf ==> v.tx.blockSize == bs) && v.rx.Valid() && v.rx.asm.receiving
    requires Lasts(s, bs) && Missing(v.rx.asm) == Missing(s.rx.asm) - 1
    requires if bs == 0 then Stock(v, bs) > 0
      else if s.rx.asm.blockCount + 1 == bs then v.rx.asm.blockCount == 0 && Stock(v, bs) == Stock(s, bs) - 1 + bs
      else v.rx.asm.blockCount == s.rx.asm.blockCount + 1 && Stock(v, bs) == Stock(s, bs) - 1
    ensures Lasts(v, bs)
  {
    hide Stock, Missing;
  }

  lemma MoreStock(u: S.Session, v: S.Session, bs: u8)
    requires u.tx.Valid() && (u.tx.state == SendCf ==> u.tx.blockSize == bs) && v.tx == u.tx
    requires |u.fcQ| <= |v.fcQ| <= |u.fcQ| + 1
    ensures bs == 0 ==> Stock(v, bs) >= Stock(u, bs)
    ensures bs > 0 ==> Stock(v, bs) == Stock(u, bs) + (if |v.fcQ| == |u.fcQ| then 0 else bs)
  {
    OneLess(bs, |v.fcQ|, |u.fcQ|);
  }

  /** What is needed to go on. */
  ghost predicate Going(s: S.Session, c: S.Setup, m: seq<u8>, j: nat, first: u8) {
    && Due(s, c, m, j) && Open(s.rx.asm, c.rcfg.blockSize, |m|, first)
    && j % 16 == Stored(s.rx.asm) % 16 && j <= Stored(s.rx.asm) && Lasts(s, c.rcfg.blockSize)
  }

  /** One more frame of m is stored. */
  lemma Feed(s: S.Session, c: S.Setup, m: seq<u8>, j: nat, first: u8) returns (acts: seq<Act>)
    requires Going(s, c, m, j, first)
    ensures AllSame(acts)
    ensures var r := Conversation(s, c, acts);
      || (Going(r, c, m, j + 1, first) && r.inds == s.inds)
      || (exists more :: r.inds == s.inds + more && Lies(more, first))
  {
    hide Happen, ConsecutiveFrame, CfCount, AsmStep, Stock, OnlyCts, Stored, Conversation, AtBoundary;
    var bs := c.rcfg.blockSize;
    SomeStock(s, bs);
    var next := SendNext(s, c, m, j);
    var u := Conversation(s, c, next);
    OneTaken(s.rx.asm, bs, m, j, first);
    OneDelivered(u, c, ConsecutiveFrame(m, j));
    var deliver := Step(S.DeliverData(0, true));
    One(u, c, deliver);
    Then(s, c, next, [deliver]);
    acts := next + [deliver];
    var v := Happen(u, c, deliver);
    if v.rx.asm.receiving {
      assert v.inds == s.inds + [] == s.inds;
      BeforeEnd(v.rx.asm, bs);
      SameRest(j, Stored(s.rx.asm));
      MoreStock(u, v, bs);
      StillLasts(s, v, bs);
    }
  }

  lemma SameRest(j: int, k: int)
    requires j % 16 == k % 16
    ensures (j + 1) % 16 == (k + 1) % 16
  {}

  /** The rest arrives and completes the reception. */
  lemma {:induction false} Complete(s: S.Session, c: S.Setup, m: seq<u8>, j: nat, first: u8) returns (acts: seq<Act>)
    requires Going(s, c, m, j, first)
    ensures AllSame(acts)
    ensures exists more :: Conversation(s, c, acts).inds == s.inds + more && Lies(more, first)
    decreases CfCount(|m|) - j
  {
    hide Conversation, Open, Lasts, OnlyCts, Lies;
    acts := Feed(s, c, m, j, first);
    var v := Conversation(s, c, acts);
    if Going(v, c, m, j + 1, first) && v.inds == s.inds {
      var rest := Complete(v, c, m, j + 1, first);
      Then(s, c, acts, rest);
      acts := acts + rest;
    }
  }

  // ---------------------------------------------------------------------------------------------
  // The mixture
  // ---------------------------------------------------------------------------------------------

  lemma FirstLost(s: S.Session, c: S.Setup, m: seq<u8>)
    requires s.tx.Valid() && s.rx.Valid() && !s.tx.Busy() && s.dataQ == [] && SF_MAX_DATA < |m|
    requires TransmitResult(s.tx, m) == Ok
    ensures var r := Happen(Happen(s, c, Step(S.Send(Transmit(m, 0, true, 0)))), c, DropData(0));
      && r.tx.Valid() && r.tx.state == WaitFc && r.tx.Message() == m && r.tx.Emitted() == 1 && IsMessage(m)
      && r.dataQ == [] && r.rx == s.rx && r.fcQ == s.fcQ && r.inds == s.inds
  {
    hide Segment, TxFirst, Loaded;
    IsoTpSender.TransmitStep(s.tx, m, 0, true, 0);
    IsoTpSender.SegmentLength(m);
    assert [] + [Segment(m)[0]] == [Segment(m)[0]];
  }

  lemma {:induction false} CtsKept(q: seq<Frame>, i: nat)
    requires i < |q| && !IsCts(q[i])
    ensures CtsIn(Remove(q, i)) == CtsIn(q)
    decreases |q|
  {
    hide IsCts;
    if i > 0 {
      assert Remove(q, i)[1..] == Remove(q[1..], i - 1);
      CtsKept(q[1..], i - 1);
    } else {
      assert Remove(q, i) == q[1..];
    }
  }

  lemma {:induction false} AllAreCts(q: seq<Frame>)
    requires forall i :: 0 <= i < |q| ==> IsCts(q[i])
    ensures CtsIn(q) == |q|
    decreases |q|
  {
    if q != [] { AllAreCts(q[1..]); }
  }

  lemma OwnCts(f: Frame, cfg: Cfg)
    requires f == FcFrame(FC_CTS, cfg.blockSize, cfg.stMin) || f == FcFrame(FC_OVFLW, cfg.blockSize, cfg.stMin)
    ensures IsCts(f) <==> f == FcFrame(FC_CTS, cfg.blockSize, cfg.stMin)
  {}

  /** Everything but the continue-to-sends is lost, starting at position i of the channel. */
  lemma {:induction false} Purge(s: S.Session, c: S.Setup, i: nat) returns (acts: seq<Act>)
    requires s.tx.Valid() && s.rx.Valid() && OwnFc(s.fcQ, c.rcfg) && i <= |s.fcQ|
    requires forall k :: 0 <= k < i ==> IsCts(s.fcQ[k])
    ensures AllSame(acts)
    ensures var r := Conversation(s, c, acts);
      && r == s.(fcQ := r.fcQ) && |r.fcQ| == CtsIn(s.fcQ)
      && forall k :: 0 <= k < |r.fcQ| ==> r.fcQ[k] == FcFrame(FC_CTS, c.rcfg.blockSize, c.rcfg.stMin)
    decreases |s.fcQ| - i
  {
    hide FcFrame, IsCts, CtsIn;
    forall k | 0 <= k < |s.fcQ|
      ensures IsCts(s.fcQ[k]) <==> s.fcQ[k] == FcFrame(FC_CTS, c.rcfg.blockSize, c.rcfg.stMin)
    {
      OwnCts(s.fcQ[k], c.rcfg);
    }
    if i == |s.fcQ| {
      AllAreCts(s.fcQ);
      acts := [];
    } else if IsCts(s.fcQ[i]) {
      acts := Purge(s, c, i + 1);
    } else {
      var u := Happen(s, c, DropFc(i));
      assert forall k :: 0 <= k < |u.fcQ| ==> u.fcQ[k] == s.fcQ[if k < i then k else k + 1];
      CtsKept(s.fcQ, i);
      acts := Purge(u, c, i);
      One(s, c, DropFc(i));
      Then(s, c, [DropFc(i)], acts);
      acts := [DropFc(i)] + acts;
    }
  }

  /** The old continue-to-sends get out of the driver, and nothing else is left beside them. */
  lemma Tidy(s: S.Session, c: S.Setup) returns (acts: seq<Act>)
    requires s.tx.Valid() && s.rx.Valid() && OwnFc(s.fcQ, c.rcfg)
    ensures AllSame(acts)
    ensures var r := Conversation(s, c, acts);
      && r == s.(rx := r.rx, fcQ := r.fcQ, fcSent := r.fcSent) && r.rx.asm == s.rx.asm
      && OnlyCts(r, c.rcfg) && |r.fcQ| == Cts(s.rx, s.fcQ)
  {
    hide FcFrame, CtsIn, Conversation;
    var poll := Step(S.Poll(FcRetry(true)));
    var u := Happen(s, c, poll);
    assert s.inds + [] == s.inds;
    if !s.rx.fcPending { assert s.fcQ + [] == s.fcQ; }
    SameCts(s.rx, c.rcfg, FcRetry(true), s.fcQ);
    acts := Purge(u, c, 0);
    One(s, c, poll);
    Then(s, c, [poll], acts);
    acts := [poll] + acts;
  }

  /** Enough continue-to-sends for the frames to skip and for what is missing. */
  lemma Suffices(s: S.Session, a: Asm, bs: u8, cts: nat)
    requires s.tx.Valid() && s.tx.state == WaitFc && |s.fcQ| == cts && s.rx.Valid() && s.rx.asm == a
    requires a.receiving && AtBoundary(a, bs) && Enough(a, bs, cts)
    ensures if bs == 0 then Stock(s, bs) > 0
      else
        && Stock(s, bs) > Stored(a) % 16
        && Min(bs - 1, a.blockCount + Missing(a) - 1) < Stock(s, bs) - Stored(a) % 16 + a.blockCount
  {
    BeforeEnd(a, bs);
  }

  /** From an open reception and enough continue-to-sends to an Ok that is a lie. */
  lemma Mix(s: S.Session, c: S.Setup) returns (act: TxAct, acts: seq<Act>)
    requires Reachable(s, c) && !s.tx.Busy() && s.dataQ == []
    requires s.rx.asm.receiving && Enough(s.rx.asm, c.rcfg.blockSize, Cts(s.rx, s.fcQ))
    ensures Confuses(s, c, act, acts)
  {
    hide Happen, Conversation, Segment, AsmStep, Cts, FcFrame, Enough, Announced, OwnFc, AtBoundary, Due;
    var a, first := s.rx.asm, s.rx.asm.buf[0];
    var m: seq<u8> := seq(a.length, _ => (first as int + 1) % TWO8);
    act := Transmit(m, 0, true, 0);
    var s1 := Happen(s, c, Step(S.Send(act)));
    FirstLost(s, c, m);
    One(s1, c, DropData(0));
    var s2 := Happen(s1, c, DropData(0));
    var rest := FromLost(s2, c, m, a);
    Then(s1, c, [DropData(0)], rest);
    acts := [DropData(0)] + rest;
    var more :| Conversation(s2, c, rest).inds == s2.inds + more && Lies(more, first);
    assert m[0] != first;
    assert (s2.inds + more)[|s.inds|] == more[0];
  }

  /** The first frame is lost; the sender waits, the receiver is where it was. */
  lemma FromLost(s: S.Session, c: S.Setup, m: seq<u8>, a: Asm) returns (acts: seq<Act>)
    requires s.tx.Valid() && s.tx.state == WaitFc && s.tx.Message() == m && s.tx.Emitted() == 1 && IsMessage(m)
    requires s.rx.Valid() && s.rx.asm == a && a.receiving && |m| == a.length && s.dataQ == [] && OwnFc(s.fcQ, c.rcfg)
    requires AtBoundary(a, c.rcfg.blockSize) && Enough(a, c.rcfg.blockSize, Cts(s.rx, s.fcQ))
    ensures AllSame(acts)
    ensures exists more :: Conversation(s, c, acts).inds == s.inds + more && Lies(more, a.buf[0])
  {
    hide Happen, Conversation, Segment, AsmStep, Cts, FcFrame, Stock, Enough, Lies;
    var bs, k := c.rcfg.blockSize, Stored(a) % 16;
    var tidy := Tidy(s, c);
    var s3 := Conversation(s, c, tidy);
    BeforeEnd(a, bs);
    Suffices(s3, a, bs, Cts(s.rx, s.fcQ));
    var skip := Skip(s3, c, m, 0, k);
    Then(s, c, tidy, skip);
    var s4 := Conversation(s3, c, skip);
    var rest := Complete(s4, c, m, k, a.buf[0]);
    Then(s, c, tidy + skip, rest);
    acts := (tidy + skip) + rest;
  }

  /**
   * In every state two links can get into (`IsoTpChannel.AlwaysReachable`) with an idle sender and an empty data
   * channel, for every block size: losses can make some further message arrive as something else exactly if a reception
   * is open and enough old continue-to-sends are queued or pending.
   */
  lemma MixesExactly(s: S.Session, c: S.Setup)
    requires Reachable(s, c) && !s.tx.Busy() && s.dataQ == []
    ensures (exists act, acts :: Confuses(s, c, act, acts))
      <==> s.rx.asm.receiving && Enough(s.rx.asm, c.rcfg.blockSize, Cts(s.rx, s.fcQ))
  {
    hide Happen, Conversation, Enough, Cts, OwnFc, Announced, AtBoundary;
    if s.rx.asm.receiving && Enough(s.rx.asm, c.rcfg.blockSize, Cts(s.rx, s.fcQ)) {
      var act, acts := Mix(s, c);
    } else {
      forall act, acts ensures !Confuses(s, c, act, acts) {
        if act.Transmit? && TransmitResult(s.tx, act.msg) == Ok && AllSame(acts) {
          OnlyTheMessage(s, c, act, acts);
          var r := Conversation(Happen(s, c, Step(S.Send(act))), c, acts);
          assert forall i :: |s.inds| <= i < |r.inds| ==> r.inds[i] == r.inds[|s.inds|..][i - |s.inds|];
        }
      }
    }
  }
}
