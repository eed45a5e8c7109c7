/**
 * What a control interrupt does to the output: the second half of `ctrl_cmd` in src/main.c, where a command
 * queues its reply and acknowledgement and triggers the data side.
 */
module Control {
  import opened Words
  import opened Ring
  import opened HostProtocol
  import opened HostPort
  import opened SpiData
  import opened ExtractRx
  import opened DataPort
  import opened MainLoop

  /** The loader with its memory and flash, and the output that dumps from that memory. */
  datatype Both = Both(host: HostState, out: OutState)
  {
    predicate Wf() {
      host.Wf() && out.Wf() && !out.fromRx
    }
  }

  /** What the switch does to the output: a reply, the dump address, or a new dump. */
  function Switched(o: OutState, cmd: Byte, arg: Word, answer: Word): OutState {
    if cmd in P.replying then o.(reply := Tail(answer, 4, 4))
    else if cmd == P.memRdAddr then o.(addr := Value(arg))
    else if cmd == P.memDump then StartDump(o, Value(arg), false)
    else o
  }

  /** The word that a command replies with: known where memory and flash decide it, otherwise from elsewhere. */
  function ReplyWord(h: HostState, cmd: Byte, arg: Word, answer: Word): Word
    requires h.Wf()
  {
    match KnownAnswer(h, cmd, arg)
    case Some(w) => w
    case None => answer
  }

  /** Every command but a transmit packet is acknowledged; an unknown one as the PSoC would. */
  function Obey(o: OutState, cmd: Byte, arg: Word, answer: Word): OutState {
    var t := Switched(o, cmd, arg, answer);
    if cmd == P.txPacket then t
    else t.(ack := Tail(ReplyPacket(if cmd in P.known then P.hbcAck else P.psocAck, 0), P.replySize, P.replySize))
  }

  /** One data interrupt: a fetch reads the memory as it is at that moment. */
  function DataTurn(m: Both): (r: Both)
    requires m.Wf()
    ensures r.Wf() && r.host == m.host
  {
    StepWf(m.out, m.host.cells[Slot(m.out.addr)]);
    StepKeepsSource(m.out, m.host.cells[Slot(m.out.addr)]);
    m.(out := Step(m.out, m.host.cells[Slot(m.out.addr)]))
  }

  lemma StepKeepsSource(o: OutState, w: Word)
    requires o.index < 4
    ensures Step(o, w).fromRx == o.fromRx
  {}

  /** One control interrupt; `answer` is the word that a command replies with if other parts decide it. */
  function ControlTurn(m: Both, b: Byte, answer: Word): (r: Both)
    requires m.Wf()
    ensures r.Wf() && r.host == CtrlByte(m.host, b)
  {
    var h := CtrlByte(m.host, b);
    match Completed(m.host, b)
    case None => m.(host := h)
    case Some(c) =>
      ObeyWf(m.out, c.0, c.1, ReplyWord(h, c.0, c.1, answer));
      DataTurn(Both(h, Obey(m.out, c.0, c.1, ReplyWord(h, c.0, c.1, answer))))
  }

  lemma ObeyWf(o: OutState, cmd: Byte, arg: Word, answer: Word)
    requires o.Wf() && !o.fromRx
    ensures Obey(o, cmd, arg, answer).Wf() && !Obey(o, cmd, arg, answer).fromRx
  {
    hide Tail, ReplyPacket, Value, BytesOf;
    NoBytesYet();
  }

  lemma NoBytesYet()
    ensures BytesOf([], [])
  {}

  /** The port and the output, as the two handlers run on them while dumps come from memory. */
  class Console {
    const port: Port
    const out: DataOut

    ghost predicate Valid()
      reads this, port, port.bank, port.pkt, port.device, out, out.rx, out.rx.bank, out.rx.scrambler
    {
      && port.Valid() && out.Valid() && out.rx.Valid()
      && out.bank == port.bank && out.rx.bank != port.bank && !out.dumpHbcRx
    }

    ghost function Pair(): Both
      requires Valid()
      reads this, port, port.bank, port.pkt, port.device, out, out.rx, out.rx.bank, out.rx.scrambler
    {
      Both(port.State(), out.State())
    }

    constructor (port: Port, out: DataOut)
      requires port.Valid() && out.Valid() && out.rx.Valid()
      requires out.bank == port.bank && out.rx.bank != port.bank && !out.dumpHbcRx
      ensures Valid() && this.port == port && this.out == out
    {
      this.port, this.out := port, out;
    }

    lemma PairWf()
      requires Valid()
      ensures Pair().Wf()
    {
      hide RxPath.Valid;
    }

    method DataIrq()
      requires Valid()
      modifies out, port.bank`rd, out.rx`rdBufAddr, out.rx`view, out.rx.bank`rd
      ensures Valid() && old(Pair()).Wf() && Pair() == DataTurn(old(Pair()))
    {
      hide RxPath.Valid, DataOut.Valid, Port.Valid, Port.State, HostState.Wf, OutState.Wf, Step, Slot, Tail;
      PairWf();
      ghost var m := Pair();
      port.BankIsValid();
      port.StateCells();
      out.StateAddr();
      ghost var fetched := out.HbcDataIrq();
      port.ReadElsewhere();
      StateIndex(m.out);
      NoFetch(m.out, fetched, m.host.cells[Slot(m.out.addr)]);
    }

    /** The switch and the end of `ctrl_cmd`, up to the trigger. */
    method Answer(cmd: Byte, arg: Word, answer: Word)
      requires Valid()
      modifies out
      ensures Valid() && out.State() == Obey(old(out.State()), cmd, arg, answer) && port.State() == old(port.State())
    {
      hide RxPath.Valid, DataOut.Valid, Port.Valid, Port.State, Tail, Value, ReplyPacket;
      if cmd in P.replying {
        out.HbcSpiReply(answer, 4);
      } else if cmd == P.memRdAddr {
        out.HbcSpiDumpAddr(arg);
      } else if cmd == P.memDump {
        out.HbcSpiDumpBytes(Value(arg), false);
      }
      if cmd != P.txPacket {
        out.HbcSpiAck(ReplyPacket(if cmd in P.known then P.hbcAck else P.psocAck, 0));
      }
    }

    method ControlIrq(byte: Byte, answer: Word)
      requires Valid()
      modifies port, port.bank, port.pkt, port.device, out, out.rx`rdBufAddr, out.rx`view, out.rx.bank`rd
      ensures Valid() && old(Pair()).Wf() && Pair() == ControlTurn(old(Pair()), byte, answer)
    {
      hide RxPath.Valid, DataOut.Valid, Port.Valid, Port.State, DataOut.State, HostState.Wf, OutState.Wf, CtrlByte, Completed, Obey,
        DataTurn, KnownAnswer;
      PairWf();
      var ran, known := port.HbcCtrlIrq(byte);
      if ran.Some? {
        Answer(ran.value.0, ran.value.1, if known.Some? then known.value else answer);
        DataIrq();
      }
    }
  }

  lemma StateIndex(o: OutState)
    requires o.Wf()
    ensures o.index < 4
  {}
}
