/** The steps of the whole path, each written out where it is needed. */
module Steps {
  import opened Words
  import opened Plcp
  import opened HostPort
  import opened SpiData
  import opened ExtractRx
  import opened MainLoop
  import opened TxRing
  import opened Loopback

  lemma ReadIs(ps: seq<seq<Byte>>, s: Sys)
    requires AllSendable(ps) && s.Wf(ps)
    ensures s.pc == Top ==> Next(ps, s, Step.ReadPending) == s.(pc := if s.host.pending > 1 then Go else SawFew)
    ensures s.pc == SawFew ==> Next(ps, s, Step.ReadAgain) == s.(pc := if s.host.pending == 1 then SawOne else Top)
    ensures s.pc == SawOne ==> Next(ps, s, Step.ReadBusy) == s.(pc := if s.host.loading == 0 then Go else Top)
    ensures s.pc == Sent ==>
      Next(ps, s, Step.CountDown) == s.(pc := Top, host := s.host.(pending := s.host.pending - 1))
  {}

  /** A control interrupt changes the host's position and runs the control handler. */
  lemma HostStepIs(ps: seq<seq<Byte>>, s: Sys, step: Step, byte: Byte)
    requires AllSendable(ps) && s.Wf(ps) && Enabled(ps, s, step) && Brings(ps, s, step, byte)
    ensures var t := Next(ps, s, step);
      t == s.(host := CtrlByte(s.host, byte), packet := t.packet, offset := t.offset, stray := t.stray)
  {
    hide CtrlByte, PacketByte;
  }

  /** The state after the send branch. */
  function SentState(ps: seq<seq<Byte>>, s: Sys): Sys
    requires s.host.Wf()
  {
    s.(pc := Sent, sent := s.sent + 1, frames := s.frames + [SentFrame(s.host, s.info)],
       announced := s.announced + [Announced(ps, s.packet, s.offset, s.sent)], air := AirFrame(s.host, s.info),
       inFlight := true, info := AfterSend(s.info, PacketLength(s.host)), host := AfterFrame(s.host))
  }

  lemma TransmitIsSend(ps: seq<seq<Byte>>, s: Sys, base: Origin, info: HeaderInfo)
    requires AllSendable(ps) && Inv(ps, s, base, info) && s.Wf(ps) && Enabled(ps, s, Step.Transmit)
    ensures s.rx.open == [] && Next(ps, s, Step.Transmit) == SentState(ps, s)
  {
    hide TxOk, OutOk, SentFrame, AirFrame, AfterFrame, AfterSend, PacketLength;
  }

  lemma ArriveIs(ps: seq<seq<Byte>>, s: Sys, n: nat)
    requires AllSendable(ps) && s.Wf(ps) && n <= |s.air|
    ensures Next(ps, s, Step.Arrive(n)) == s.(fifo := s.fifo + s.air[..n], air := s.air[n..])
  {}

  lemma ReceiveIs(ps: seq<seq<Byte>>, s: Sys)
    requires AllSendable(ps) && s.Wf(ps)
    ensures Next(ps, s, RxData) == s.(rx := Absorb(s.rx, s.fifo), fifo := [])
    ensures s.inFlight && s.air == [] ==>
      Next(ps, s, RxReady) == s.(rx := Close(Absorb(s.rx, s.fifo)), fifo := [], inFlight := false)
  {}

  /** A frame of at most 255 bytes is far shorter than the ring. */
  lemma FrameIsShort(ps: seq<seq<Byte>>, s: Sys, base: Origin, info: HeaderInfo)
    requires AllSendable(ps) && Inv(ps, s, base, info)
    ensures |s.rx.open| + |s.fifo| <= 65
  {
    hide TxOk, OutOk, InfoAt, FrameIs, Absorb;
    AbsorbLength(s.rx, s.fifo + s.air);
    if s.inFlight {
      var r := |s.rx.done| + |s.rx.ready|;
      FrameSmall(ps, base, info, r, s.announced[r], s.frames[r]);
    }
  }

  lemma DumpsFromRx(ps: seq<seq<Byte>>, s: Sys, base: Origin, info: HeaderInfo)
    requires AllSendable(ps) && Inv(ps, s, base, info)
    ensures s.out.Fetches() ==> s.out.fromRx
  {
    hide TxOk, RxOk, Dumping, IsDump, Flat, RxView.Wf, OutState.Wf;
  }

  /** A fetch takes the word the handler took: the reader's next. */
  lemma FetchedIs(v: RxView, w: Word, s: Sys)
    requires s.rx == v && v.Wf() && v.Intact(v.cursor) && v.Gives(w)
    ensures Fetched(s, w) == w
  {
    hide RxView.Written, RxView.Intact;
  }

  lemma RoomToDump(ps: seq<seq<Byte>>, s: Sys)
    requires AllSendable(ps) && s.Wf(ps) && NoOverrun(ps, s)
    ensures s.rx.Wf() && (s.out.todo > 0 ==> s.rx.Intact(s.rx.cursor))
  {
    hide TxIntact, Flat, RxView.Written;
  }

  lemma DataIs(ps: seq<seq<Byte>>, s: Sys, base: Origin, info: HeaderInfo, w: Word)
    requires AllSendable(ps) && s.Wf(ps) && Enabled(ps, s, DataIrq(w)) && Inv(ps, s, base, info) && NoOverrun(ps, s)
    requires s.rx.Wf() && (s.out.Fetches() ==> s.rx.Gives(w))
    ensures Next(ps, s, DataIrq(w))
      == s.(out := SpiData.Step(s.out, w), log := s.log + SpiData.Sent(s.out, Pull(w)), rx := if s.out.Fetches() then s.rx.(cursor := s.rx.cursor + 1) else s.rx)
  {
    hide Inv, NoOverrun, Fetched, SpiData.Step, SpiData.Sent, HostState.Wf, OutState.Wf, RxView.Wf, RxView.Gives, RxView.Intact;
    DumpsFromRx(ps, s, base, info);
    RoomToDump(ps, s);
    if s.out.Fetches() {
      FetchedIs(s.rx, w, s);
    }
    IndexIs(s.out);
    NoFetch(s.out, Fetched(s, w), w);
    NoFetchSends(s.out, Fetched(s, w), w);
  }

  lemma RoomToForward(ps: seq<seq<Byte>>, s: Sys)
    requires AllSendable(ps) && s.Wf(ps) && NoOverrun(ps, s)
    ensures s.rx.Wf() && s.rx.Intact(|Flat(s.rx.done)|)
  {
    hide TxIntact, Flat, RxView.Written;
  }

  lemma ForwardIs(ps: seq<seq<Byte>>, s: Sys)
    requires AllSendable(ps) && s.Wf(ps) && Enabled(ps, s, Forward)
    ensures Next(ps, s, Forward) == ForwardState(s)
  {
    hide ForwardState;
  }
}
