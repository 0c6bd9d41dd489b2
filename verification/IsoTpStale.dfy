/**
 * A concrete run of what `IsoTpMixing.MixesExactly` describes: a lost first frame, and two messages in one indication.
 *
 * RxFinish leaves `rxFcPending` alone, and an interrupted sender may start a new message while the receiver
 * still waits for the old one. A flow control frame kept back by a busy driver then releases consecutive
 * frames of the second message into the reception of the first.
 */
module IsoTpStale {
  import opened Words
  import opened IsoTpModel
  import S = IsoTpSession
  import L = IsoTpChannel

  const FIRST: seq<u8> := [1, 1, 1, 1, 1, 1, 1, 1]
  const SECOND: seq<u8> := [2, 2, 2, 2, 2, 2, 2, 2]

  /** Default timeouts, no block limit, no separation time. */
  ghost function Defaults(): S.Setup { S.Setup(DEFAULT_N_BS_MS, Cfg(0, 0, DEFAULT_N_BS_MS, DEFAULT_N_CR_MS)) }

  /**
   * The first message is sent at 0 ms; its first frame arrives, but the driver refuses the flow control
   * frame. At 1000 ms the sender times out.
   */
  ghost function TimedOut(): (s: S.Session)
    ensures s.tx.Valid() && s.rx.Valid()
  {
    var s0 := S.Session(IdleTx([0, 0, 0, 0, 0, 0, 0, 0]), IdleRx([0, 0, 0, 0, 0, 0, 0, 0]), [], [], [], [], 0, 0);
    var s1 := S.Step(s0, Defaults(), S.Send(Transmit(FIRST, 0, true, 0)));
    var s2 := S.Step(s1, Defaults(), S.DeliverData(500, false));
    S.Step(s2, Defaults(), S.Send(BsCheck(1000)))
  }

  /** The second message is sent at once and its first frame is lost; then the pending flow control leaves. */
  ghost function Resent(): (s: S.Session)
    ensures s.tx.Valid() && s.rx.Valid()
  {
    var s4 := S.Step(TimedOut(), Defaults(), S.Send(Transmit(SECOND, 1000, true, 1000)));
    var s5 := s4.(dataQ := L.Remove(s4.dataQ, 0));
    S.Step(s5, Defaults(), S.Poll(FcRetry(true)))
  }

  /** The sender takes it as its own, and its last frame completes the first message. */
  ghost function Mixed(): (s: S.Session)
    ensures s.tx.Valid() && s.rx.Valid()
  {
    var s7 := S.Step(Resent(), Defaults(), S.DeliverFc(1001));
    var s8 := S.Step(s7, Defaults(), S.Send(Cf(1001, true, 1001, 1001)));
    S.Step(s8, Defaults(), S.DeliverData(1002, true))
  }

  /** The first frame of `FIRST`, and what a receiver with eight zero bytes makes of it. */
  lemma FirstBytes(f: Frame)
    requires f == [0x10, 8] + FIRST[..6]
    ensures f == [0x10, 8, 1, 1, 1, 1, 1, 1]
    ensures Overwrite([0, 0, 0, 0, 0, 0, 0, 0], 0, f[2..]) == [1, 1, 1, 1, 1, 1, 0, 0]
  {
    assert FIRST[..6] == [1, 1, 1, 1, 1, 1];
    assert f[2..] == [1, 1, 1, 1, 1, 1];
  }

  lemma FirstTransmit(tx: Tx)
    requires tx == IdleTx([0, 0, 0, 0, 0, 0, 0, 0])
    ensures var o := TxStep(tx, 1000, Transmit(FIRST, 0, true, 0));
      o == TxOut(Tx(WaitFc, FIRST, 8, 6, 1, 0, 0, 0, 0, 0, 0), [[0x10, 8] + FIRST[..6]], [])
  {
    assert Loaded(tx, FIRST, 0).buf == FIRST;
  }

  lemma FirstReceived(f: Frame)
    requires f == [0x10, 8, 1, 1, 1, 1, 1, 1]
    requires Overwrite([0, 0, 0, 0, 0, 0, 0, 0], 0, f[2..]) == [1, 1, 1, 1, 1, 1, 0, 0]
    ensures RxStep(IdleRx([0, 0, 0, 0, 0, 0, 0, 0]), Defaults().rcfg, Data(f, CAN_DL, 500, false))
            == RxOut(Rx(Asm(true, [1, 1, 1, 1, 1, 1, 0, 0], 8, 6, 1, 0), 500, true, FC_CTS), [], [])
  {
    hide Overwrite;
  }

  lemma TimedOutState()
    ensures var s := TimedOut();
      && s.tx == Tx(TxIdle, FIRST, 8, 6, 1, 0, 0, 0, 0, 0, 0)
      && s.rx == Rx(Asm(true, [1, 1, 1, 1, 1, 1, 0, 0], 8, 6, 1, 0), 500, true, FC_CTS)
      && s.dataQ == [] && s.fcQ == [] && s.inds == [] && s.accepted == [FIRST]
  {
    hide AsmStep, TxFirst, Loaded;
    FirstTransmit(IdleTx([0, 0, 0, 0, 0, 0, 0, 0]));
    FirstBytes([0x10, 8] + FIRST[..6]);
    FirstReceived([0x10, 8] + FIRST[..6]);
  }

  lemma SecondTransmit(tx: Tx)
    requires tx == Tx(TxIdle, FIRST, 8, 6, 1, 0, 0, 0, 0, 0, 0)
    ensures var o := TxStep(tx, 1000, Transmit(SECOND, 1000, true, 1000));
      o.tx == Tx(WaitFc, SECOND, 8, 6, 1, 0, 0, 0, 1000, 0, 0) && |o.sent| == 1
  {
    assert Loaded(tx, SECOND, 1000).buf == SECOND;
  }

  lemma ResentState()
    ensures var s := Resent();
      && s.tx == Tx(WaitFc, SECOND, 8, 6, 1, 0, 0, 0, 1000, 0, 0)
      && s.rx == Rx(Asm(true, [1, 1, 1, 1, 1, 1, 0, 0], 8, 6, 1, 0), 500, false, FC_CTS)
      && s.dataQ == [] && s.fcQ == [FcFrame(FC_CTS, 0, 0)] && s.inds == [] && s.accepted == [FIRST, SECOND]
  {
    hide TimedOut, TxFirst, Loaded, FcFrame;
    TimedOutState();
    SecondTransmit(TimedOut().tx);
    var s4 := S.Step(TimedOut(), Defaults(), S.Send(Transmit(SECOND, 1000, true, 1000)));
    assert |s4.dataQ| == 1;
    assert L.Remove(s4.dataQ, 0) == [];
  }

  /** The flow control frame releases the last frame of `SECOND`. */
  lemma Released(tx: Tx)
    requires tx == Tx(WaitFc, SECOND, 8, 6, 1, 0, 0, 0, 1000, 0, 0)
    ensures var t := TxStep(tx, 1000, Fc(FcFrame(FC_CTS, 0, 0), CAN_DL, 1001)).tx;
      t == Tx(SendCf, SECOND, 8, 6, 1, 0, 0, 0, 1000, 1000, 0)
  {}

  lemma LastBytes(f: Frame)
    requires f == Pad([0x21] + SECOND[6..8])
    ensures f == [0x21, 2, 2, 0xCC, 0xCC, 0xCC, 0xCC, 0xCC]
    ensures Overwrite([1, 1, 1, 1, 1, 1, 0, 0], 6, f[1..3]) == [1, 1, 1, 1, 1, 1, 2, 2]
  {
    assert SECOND[6..8] == [2, 2];
    assert f[1..3] == [2, 2];
  }

  lemma LastSent(tx: Tx)
    requires tx == Tx(SendCf, SECOND, 8, 6, 1, 0, 0, 0, 1000, 1000, 0)
    ensures var o := TxStep(tx, 1000, Cf(1001, true, 1001, 1001));
      o.sent == [Pad([0x21] + SECOND[6..8])] && !o.tx.Busy()
  {}

  lemma LastReceived(rx: Rx, f: Frame)
    requires rx == Rx(Asm(true, [1, 1, 1, 1, 1, 1, 0, 0], 8, 6, 1, 0), 500, false, FC_CTS)
    requires f == [0x21, 2, 2, 0xCC, 0xCC, 0xCC, 0xCC, 0xCC]
    requires Overwrite([1, 1, 1, 1, 1, 1, 0, 0], 6, f[1..3]) == [1, 1, 1, 1, 1, 1, 2, 2]
    ensures RxStep(rx, Defaults().rcfg, Data(f, CAN_DL, 1002, true)).inds == [Ind([1, 1, 1, 1, 1, 1, 2, 2], Ok)]
  {
    hide Overwrite;
    var b: seq<u8> := [1, 1, 1, 1, 1, 1, 2, 2];
    assert b[..8] == b;
  }

  /**
   * The application gets Ok for a message that was never sent, made of the beginning of the first and the end
   * of the second; and the sender has confirmed the second one.
   */
  lemma TwoTransfersCanMix()
    ensures var s := Mixed();
      && s.accepted == [FIRST, SECOND]
      && s.inds == [Ind([1, 1, 1, 1, 1, 1, 2, 2], Ok)]
      && !s.tx.Busy()
  {
    hide Resent, TxStep, RxStep, Pad, Overwrite, FcFrame;
    ResentState();
    var s := Resent();
    Released(s.tx);
    var s7 := S.Step(s, Defaults(), S.DeliverFc(1001));
    LastSent(s7.tx);
    LastBytes(Pad([0x21] + SECOND[6..8]));
    LastReceived(s.rx, Pad([0x21] + SECOND[6..8]));
  }
}
