/**
 * The firmware as one object: the handlers and the main loop's branches, each as the code runs it, and the
 * end-to-end guarantee after every one of them.
 */
module Machine {
  import opened Words
  import opened Plcp
  import opened Ring
  import opened Memory
  import opened Scrambling
  import opened HostPort
  import opened SpiData
  import opened DataPort
  import opened ExtractRx
  import opened Fifo
  import opened FlashDevice
  import opened MainLoop
  import opened TxRing
  import opened Loopback
  import opened Steps

  class Mac {
    const port: Port
    const rx: RxPath
    const out: DataOut
    const sender: Sender
    const forwarder: Forwarder

    /** Where the main loop stands in its guard and its send branch. */
    var pc: Pc

    /** The payloads that the host streams in, and how far it has come. */
    ghost const ps: seq<seq<Byte>>
    ghost const info: HeaderInfo
    ghost const base: Origin
    ghost var packet: nat
    ghost var offset: nat
    ghost var stray: seq<Byte>

    /** Packets sent, the frames built from them, the words on the air, and the dumps finished before the latest. */
    ghost var sent: nat
    ghost var frames: seq<Frame>
    ghost var announced: seq<bool>
    ghost var air: seq<Word>
    ghost var inFlight: bool
    ghost var past: seq<seq<Byte>>

    ghost function System(): Sys
      requires Parts()
      reads this, port, port.bank, port.pkt, port.device, rx, rx.bank, rx.scrambler, out, sender
    {
      Sys(port.State(), packet, offset, stray, pc, sender.info, sent, frames, announced, air, inFlight, rx.fifo, rx.view, out.State(), past, out.written)
    }

    /** How the parts are connected. */
    ghost predicate Wired() {
      && sender.port == port && sender.scrambler == rx.scrambler
      && forwarder.rx == rx && forwarder.out == out
      && out.rx == rx && out.bank == port.bank && rx.bank != port.bank
    }

    ghost predicate Parts()
      reads this, port, port.bank, port.pkt, port.device, rx, rx.bank, rx.scrambler, out, sender
    {
      Wired() && port.Valid() && rx.Valid() && out.Valid()
    }

    ghost predicate Valid()
      reads this, port, port.bank, port.pkt, port.device, rx, rx.bank, rx.scrambler, out, sender
    {
      Parts() && AllSendable(ps) && info.InRange() && Inv(ps, System(), base, info)
    }

    /** Neither ring is overrun where it is about to be read. */
    ghost predicate Roomy()
      requires Valid()
      reads this, port, port.bank, port.pkt, port.device, rx, rx.bank, rx.scrambler, out, sender
    {
      hide Inv, Sys.Wf, NoOverrun;
      InvIsWf(ps, System(), base, info);
      NoOverrun(ps, System())
    }

    ghost predicate Can(step: Step)
      requires Valid()
      reads this, port, port.bank, port.pkt, port.device, rx, rx.bank, rx.scrambler, out, sender
    {
      Enabled(ps, System(), step)
    }

    /** `byte` is what the host's step brings. */
    ghost predicate Brings(step: Step, byte: Byte)
      requires Valid() && Can(step)
      reads this, port, port.bank, port.pkt, port.device, rx, rx.bank, rx.scrambler, out, sender
    {
      hide Inv, Sys.Wf, Enabled, Loopback.Brings;
      InvIsWf(ps, System(), base, info);
      Loopback.Brings(ps, System(), step, byte)
    }

    /** The state that a step of the specification leads to. */
    ghost function After(step: Step): Sys
      requires Valid() && Can(step)
      reads this, port, port.bank, port.pkt, port.device, rx, rx.bank, rx.scrambler, out, sender
    {
      hide Inv, Sys.Wf, Next;
      InvIsWf(ps, System(), base, info);
      Next(ps, System(), step)
    }

    /** Everything as start-up leaves it. */
    lemma Started()
      requires Parts() && AllSendable(ps) && info == HeaderInfo(0, 6, 0, 0, 0) && base == Origin(Slot(0), port.bank.cells)
      requires port.State() == HostState(None, 0, 0, 0, 0, port.bank.cells, 0, 0, port.device.data, 0, [])
      requires packet == offset == sent == 0 && stray == [] && frames == [] && announced == [] && pc == Top && sender.info == info
      requires air == [] && !inFlight && rx.fifo == [] && rx.view == RxView([], [], [], 0, false)
      requires out.State() == OutState([], [], 0, 0, 0, false, 0, [], []) && out.written == [] && past == []
      ensures Valid() && Delivered(ps, base, System())
    {
      hide Inv, Delivered, RxPath.Valid, DataOut.Valid, HeaderInfo.InRange, Initial, AllSendable;
      DefaultInRange();
      port.StateIsWf();
      StartIsInitial(System(), info);
      InitialInv(ps, System(), info);
      InvDelivers(ps, System(), base, info);
    }

    /** The main loop on top of the parts as start-up leaves them, for a host that is about to stream `ps`. */
    constructor (ghost ps: seq<seq<Byte>>, port: Port, rx: RxPath, out: DataOut, fifo: TxFifo)
      requires AllSendable(ps) && port.Valid() && rx.Valid() && out.Valid()
      requires out.rx == rx && out.bank == port.bank && rx.bank != port.bank
      requires port.State() == HostState(None, 0, 0, 0, 0, port.bank.cells, 0, 0, port.device.data, 0, [])
      requires rx.fifo == [] && rx.view == RxView([], [], [], 0, false)
      requires out.State() == OutState([], [], 0, 0, 0, false, 0, [], []) && out.written == []
      ensures Valid() && this.ps == ps && packet == offset == 0 && Delivered(ps, base, System())
    {
      hide Inv, Delivered, RxPath.Valid, DataOut.Valid, Port.Valid, HeaderInfo.InRange, OutState.Wf, HostState.Wf, RxView.Wf,
        AllSendable, Tail;
      this.port, this.rx, this.out := port, rx, out;
      sender := new Sender(port, fifo, rx.scrambler);
      forwarder := new Forwarder(rx, out);
      pc := Top;
      this.ps, info, base := ps, HeaderInfo(0, 6, 0, 0, 0), Origin(Slot(0), port.bank.cells);
      packet, offset, stray, sent, frames, announced, air, inFlight, past := 0, 0, [], 0, [], [], [], false, [];
      new;
      Started();
    }

    /** The control handler, and the host's position after the byte. */
    method Take(byte: Byte, ghost packet': nat, ghost offset': nat, ghost stray': seq<Byte>)
      requires Parts()
      modifies this`packet, this`offset, this`stray, port, port.bank, port.pkt, port.device
      ensures Parts()
      ensures System() == old(System()).(host := CtrlByte(old(port.State()), byte), packet := packet', offset := offset', stray := stray')
    {
      hide RxPath.Valid, DataOut.Valid, Port.Valid, CtrlByte, HeaderInfo.InRange;
      var ran, known := port.HbcCtrlIrq(byte);
      packet, offset, stray := packet', offset', stray';
    }

    /** A control interrupt: the next byte of a packet, a stray one, or one of a damaged packet. */
    method ControlInterrupt(byte: Byte, ghost step: Step)
      requires Valid() && Roomy() && Can(step) && Brings(step, byte)
      modifies this`packet, this`offset, this`stray, port, port.bank, port.pkt, port.device
      ensures Valid() && System() == old(After(step)) && Delivered(ps, base, System())
    {
      hide Inv, Sys.Wf, Next, NoOverrun, Parts, Delivered, HeaderInfo.InRange, CtrlByte, PacketByte;
      ghost var s := System();
      InvIsWf(ps, s, base, info);
      StepKept(ps, s, base, info, step);
      HostStepIs(ps, s, step, byte);
      ghost var t := Next(ps, s, step);
      Take(byte, t.packet, t.offset, t.stray);
    }

    /** The main loop reads `tx_pending` for the first time. */
    method ReadPending()
      requires Valid() && Roomy() && Can(Step.ReadPending)
      modifies this`pc
      ensures Valid() && System() == old(After(Step.ReadPending)) && Delivered(ps, base, System())
    {
      hide Inv, Sys.Wf, Next, NoOverrun, RxPath.Valid, DataOut.Valid, Port.Valid, Delivered, HeaderInfo.InRange;
      ghost var s := System();
      InvIsWf(ps, s, base, info);
      StepKept(ps, s, base, info, Step.ReadPending);
      pc := if port.txPending > 1 then Go else SawFew;
      ReadIs(ps, s);
    }

    /** It reads `tx_pending` again. */
    method ReadAgain()
      requires Valid() && Roomy() && Can(Step.ReadAgain)
      modifies this`pc
      ensures Valid() && System() == old(After(Step.ReadAgain)) && Delivered(ps, base, System())
    {
      hide Inv, Sys.Wf, Next, NoOverrun, RxPath.Valid, DataOut.Valid, Port.Valid, Delivered, HeaderInfo.InRange;
      ghost var s := System();
      InvIsWf(ps, s, base, info);
      StepKept(ps, s, base, info, Step.ReadAgain);
      pc := if port.txPending == 1 then SawOne else Top;
      ReadIs(ps, s);
    }

    /** It asks whether a load is under way. */
    method ReadBusy()
      requires Valid() && Roomy() && Can(Step.ReadBusy)
      modifies this`pc
      ensures Valid() && System() == old(After(Step.ReadBusy)) && Delivered(ps, base, System())
    {
      hide Inv, Sys.Wf, Next, NoOverrun, RxPath.Valid, DataOut.Valid, Port.Valid, Delivered, HeaderInfo.InRange;
      ghost var s := System();
      InvIsWf(ps, s, base, info);
      StepKept(ps, s, base, info, Step.ReadBusy);
      var busy := port.LoadBusy();
      pc := if busy then Top else Go;
      ReadIs(ps, s);
    }

    /** `tx_pending--` */
    method CountDown()
      requires Valid() && Roomy() && Can(Step.CountDown)
      modifies this`pc, port`txPending
      ensures Valid() && System() == old(After(Step.CountDown)) && Delivered(ps, base, System())
    {
      hide Inv, Sys.Wf, Next, NoOverrun, RxPath.Valid, DataOut.Valid, Port.Valid, Delivered, HeaderInfo.InRange;
      ghost var s := System();
      InvIsWf(ps, s, base, info);
      StepKept(ps, s, base, info, Step.CountDown);
      sender.CountDown();
      pc := Top;
      ReadIs(ps, s);
    }

    /** The send branch, up to the masking of `pkt_addr`. */
    method Send(chips: seq<Word>)
      requires Parts() && rx.view.open == []
      modifies sender`info, port`pktAddr, port.bank`rd, sender.fifo, rx.scrambler
      ensures Parts() && old(System()).host.Wf()
      ensures System() == old(System()).(host := AfterFrame(old(System()).host),
                                         info := AfterSend(old(System()).info, PacketLength(old(System()).host)))
      ensures sender.fifo.Framed(chips, AirFrame(old(System()).host, old(System()).info))
    {
      hide RxPath.Valid, DataOut.Valid, Port.Valid, Port.State, DataOut.State, HostState.Wf, OutState.Wf, RxView.Wf, SentFrame,
        AirFrame, AfterFrame, AfterSend, PacketLength, TxFifo.Framed;
      port.StateIsWf();
      sender.Transmit(chips);
      rx.SeedOfOthers();
    }

    /** The main loop goes on to its decrement; the rest keeps the books. */
    method NoteSent(ghost s: Sys)
      requires Parts() && s.host.Wf()
      requires System() == s.(host := AfterFrame(s.host), info := AfterSend(s.info, PacketLength(s.host)))
      modifies this`pc, this`sent, this`frames, this`announced, this`air, this`inFlight
      ensures Parts() && System() == SentState(ps, s) && air == AirFrame(s.host, s.info)
    {
      hide RxPath.Valid, DataOut.Valid, Port.Valid, Port.State, DataOut.State, HostState.Wf, OutState.Wf, RxView.Wf, SentFrame,
        AirFrame, AfterFrame, AfterSend, PacketLength, Announced;
      air, frames := AirFrame(s.host, s.info), frames + [SentFrame(s.host, s.info)];
      announced := announced + [Announced(ps, packet, offset, sent)];
      sent, inFlight := sent + 1, true;
      pc := Sent;
    }

    /** The same, when the previous frame is complete at the receiver. */
    method Transmit(chips: seq<Word>)
      requires Valid() && Roomy() && Can(Step.Transmit)
      modifies this`pc, this`sent, this`frames, this`announced, this`air, this`inFlight
      modifies sender`info, port`pktAddr, port.bank`rd, sender.fifo, rx.scrambler
      ensures Valid() && System() == old(After(Step.Transmit)) && Delivered(ps, base, System())
      ensures sender.fifo.Framed(chips, air)
    {
      hide Inv, Sys.Wf, Next, NoOverrun, Parts, Delivered, HeaderInfo.InRange, SentState, TxFifo.Framed;
      ghost var s := System();
      InvIsWf(ps, s, base, info);
      StepKept(ps, s, base, info, Step.Transmit);
      TransmitIsSend(ps, s, base, info);
      Send(chips);
      NoteSent(s);
    }

    /** The next words on the air reach the receive FIFO. */
    method Arrive(words: seq<Word>)
      requires Valid() && Roomy() && words <= air && Can(Step.Arrive(|words|))
      modifies this`air, rx`fifo
      ensures Valid() && System() == old(After(Step.Arrive(|words|))) && Delivered(ps, base, System())
    {
      hide Inv, Sys.Wf, Next, NoOverrun, DataOut.Valid, Port.Valid, Delivered, HeaderInfo.InRange, RxPath.ReaderOk, RxPath.RingOk, Flat, RxView.Wf, RxView.Written;
      ghost var s := System();
      InvIsWf(ps, s, base, info);
      StepKept(ps, s, base, info, Step.Arrive(|words|));
      ArriveIs(ps, s, |words|);
      assert words == air[..|words|];
      rx.fifo := rx.fifo + words;
      air := air[|words|..];
    }

    /** The almost-full interrupt of the receive FIFO. */
    method RxDataInterrupt()
      requires Valid() && Roomy() && Can(RxData)
      modifies rx, rx.bank, rx.scrambler
      ensures Valid() && System() == old(After(RxData)) && Delivered(ps, base, System())
    {
      hide Inv, Sys.Wf, Next, NoOverrun, RxPath.Valid, DataOut.Valid, Port.Valid, Delivered, HeaderInfo.InRange, Absorb;
      ghost var s := System();
      InvIsWf(ps, s, base, info);
      StepKept(ps, s, base, info, RxData);
      FrameIsShort(ps, s, base, info);
      ReceiveIs(ps, s);
      rx.RxDataInt();
    }

    /** The packet-ready interrupt. */
    method RxReadyInterrupt()
      requires Valid() && Roomy() && Can(RxReady)
      modifies this`inFlight, rx, rx.bank, rx.scrambler
      ensures Valid() && System() == old(After(RxReady)) && Delivered(ps, base, System())
    {
      hide Inv, Sys.Wf, Next, NoOverrun, RxPath.Valid, DataOut.Valid, Port.Valid, Delivered, HeaderInfo.InRange, Absorb, Close;
      ghost var s := System();
      InvIsWf(ps, s, base, info);
      StepKept(ps, s, base, info, RxReady);
      FrameIsShort(ps, s, base, info);
      ReceiveIs(ps, s);
      rx.RxReadyInt();
      inFlight := false;
    }

    /** A data interrupt, or the trigger that stands for the first one. */
    method DataInterrupt() returns (ghost fetched: Word)
      requires Valid() && Roomy()
      modifies out, port.bank`rd, rx`rdBufAddr, rx`view, rx.bank`rd
      ensures Valid() && Delivered(ps, base, System())
      ensures old(Can(DataIrq(fetched))) && System() == old(After(DataIrq(fetched)))
      ensures out.written == old(out.written) + SpiData.Sent(old(out.State()), Pull(fetched))
    {
      hide Inv, Sys.Wf, Next, NoOverrun, RxPath.Valid, DataOut.Valid, Port.Valid, Delivered, HeaderInfo.InRange, SpiData.Step, RxView.Written, RxView.Intact;
      ghost var s := System();
      InvIsWf(ps, s, base, info);
      DumpsFromRx(ps, s, base, info);
      port.BankIsValid();
      fetched := out.HbcDataIrq();
      port.ReadElsewhere();
      StepKept(ps, s, base, info, DataIrq(fetched));
      DataIs(ps, s, base, info, fetched);
    }

    /** What the receive branch of the main loop does. */
    method Hand() returns (forwarded: bool)
      requires Parts() && out.dumpingMem == 0 && rx.view.Intact(|Flat(rx.view.done)|)
      modifies this`past, out, rx`rdPacketMarker, rx`rdPacketHeader, rx`rdBufAddr, rx`view, rx`rdPacketAddr, rx`packetReady, rx.bank`rd
      ensures Parts() && System() == ForwardState(old(System()))
      ensures forwarded == (old(rx.view.ready) != [] && Accepted(old(rx.view.ready)[0]))
    {
      hide RxPath.Valid, DataOut.Valid, Port.Valid, Port.State, DataOut.State, HostState.Wf, OutState.Wf, ForwardRx, ForwardOut,
        Accepted, RxView.Intact, RxView.Wf, HeaderInfo.InRange;
      ghost var was, last := rx.view, System().out.dumped;
      forwarded := forwarder.HbcToSpi();
      past := if forwarded && was.done != [] then past + [last] else past;
      port.BankIsValid();
      port.ReadElsewhere();
    }

    /** The receive branch, once the previous dump has drained. */
    method ForwardFrame() returns (forwarded: bool)
      requires Valid() && Roomy() && Can(Forward)
      modifies this`past, out, rx`rdPacketMarker, rx`rdPacketHeader, rx`rdBufAddr, rx`view, rx`rdPacketAddr, rx`packetReady, rx.bank`rd
      ensures Valid() && System() == old(After(Forward)) && Delivered(ps, base, System())
    {
      hide Inv, Sys.Wf, Next, NoOverrun, Parts, Delivered, HeaderInfo.InRange, ForwardState;
      ghost var s := System();
      InvIsWf(ps, s, base, info);
      StepKept(ps, s, base, info, Forward);
      RoomToForward(ps, s);
      ForwardIs(ps, s);
      forwarded := Hand();
    }

    /** The receive branch behind its test. */
    method ForwardTurn() returns (forwarded: bool)
      requires Valid() && Roomy()
      modifies this`past, out, rx`rdPacketMarker, rx`rdPacketHeader, rx`rdBufAddr, rx`view, rx`rdPacketAddr, rx`packetReady, rx.bank`rd
      ensures Valid()
      ensures if old(Can(Forward)) then System() == old(After(Forward)) else System() == old(System()) && !forwarded
    {
      hide Inv, Sys.Wf, Next, NoOverrun, Parts, Delivered, HeaderInfo.InRange;
      forwarded := false;
      var busy := out.DumpBusy();
      if !busy {
        forwarded := ForwardFrame();
      }
    }
  }

  /** Start-up. */
  method PowerOn(ghost ps: seq<seq<Byte>>, readings: seq<bool>, device: Device) returns (mac: Mac)
    requires AllSendable(ps) && device.Ready()
    ensures mac.Valid() && mac.ps == ps && mac.packet == mac.offset == 0 && Delivered(ps, mac.base, mac.System())
  {
    hide RxPath.Valid, DataOut.Valid, Port.Valid, Delivered, AllSendable, Mac.Valid, Mac.Parts, OutState.Wf, HostState.Wf, Tail;
    var txBank := new Bank();
    var rxBank := new Bank();
    var scrambler := new Scrambler();
    var fifo := new TxFifo(readings);
    var port := new Port(txBank, device);
    var rx := new RxPath(rxBank, scrambler);
    var out := new DataOut(rx, txBank);
    mac := new Mac(ps, port, rx, out, fifo);
  }

  /** What every step needs and keeps. */
  lemma StepKept(ps: seq<seq<Byte>>, s: Sys, base: Origin, info: HeaderInfo, step: Step)
    requires AllSendable(ps) && Inv(ps, s, base, info) && info.InRange() && s.Wf(ps) && NoOverrun(ps, s) && Enabled(ps, s, step)
    ensures Inv(ps, Next(ps, s, step), base, info) && Delivered(ps, base, Next(ps, s, step))
  {
    hide *;
    InvKept(ps, s, base, info, step);
    InvDelivers(ps, Next(ps, s, step), base, info);
  }

  lemma DefaultInRange()
    ensures HeaderInfo(0, 6, 0, 0, 0).InRange()
  {}

  lemma StartIsInitial(s: Sys, info: HeaderInfo)
    requires s.host == HostState(None, 0, 0, 0, 0, s.host.cells, 0, 0, s.host.flash, 0, []) && s.host.Wf()
    requires s.packet == s.offset == s.sent == 0 && s.stray == [] && s.frames == [] && s.announced == [] && s.pc == Top && s.info == info
    requires s.air == [] && !s.inFlight && s.fifo == [] && s.rx == RxView([], [], [], 0, false)
    requires s.out == OutState([], [], 0, 0, 0, false, 0, [], []) && s.past == [] && s.log == []
    ensures Initial(s, info)
  {}
}
