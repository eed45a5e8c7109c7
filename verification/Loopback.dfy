/**
 * The whole path: packets streamed in by the host come out of the data port again.
 *
 * The state puts the specifications of all parts together; a run is any interleaving of their steps.
 */
module Loopback {
  import opened Words
  import opened Crc8
  import opened Plcp
  import opened Ring
  import opened Scrambling
  import opened HostProtocol
  import opened HostPort
  import opened SpiData
  import opened DataPort
  import opened ExtractRx
  import opened MainLoop
  import opened TxRing
  import opened Transfer

  /** Where the main loop is in its test of `tx_pending` and the load flag, and in its send branch. */
  datatype Pc = Top | SawFew | SawOne | Go | Sent

  /**
   * `packet` and `offset` are the host's position in its stream, `stray` what is still to come of a
   * damaged packet; `sent` counts transmitted packets, `frames` are the frames built from them and
   * `announced` tells for each whether the host had announced the next packet by then; `air` are the words still
   * under way, `inFlight` says that a frame is not yet complete at the receiver, `fifo` is the receive FIFO; `past` are the finished dumps before the latest,
   * `log` is everything written to the host.
   */
  datatype Sys = Sys(
    host: HostState, packet: nat, offset: nat, stray: seq<Byte>,
    pc: Pc, info: HeaderInfo, sent: nat, frames: seq<Frame>, announced: seq<bool>,
    air: seq<Word>, inFlight: bool, fifo: seq<Word>,
    rx: RxView, out: OutState, past: seq<seq<Byte>>, log: seq<(Kind, Byte)>)
  {
    /** Parts are well formed; this is no more than what makes the steps defined. */
    predicate Wf(ps: seq<seq<Byte>>) {
      host.Wf() && rx.Wf() && out.Wf() && At(ps, packet, offset) && sent <= |ps|
    }
  }

  datatype Step =
    | HostByte                // one control interrupt: the next byte of a packet
    | Noise(byte: Byte)       // one that brings a stray byte between packets
    | Damage(body: seq<Byte>) // one that brings the first byte of a packet damaged on the way
    | StrayByte               // one that brings its next byte
    | DataIrq(junk: Word)     // one data interrupt or trigger; `junk` is what an unwritten cell holds
    | ReadPending             // the main loop reads tx_pending > 1
    | ReadAgain               // it reads tx_pending == 1
    | ReadBusy                // it reads the load flag
    | Transmit                // it sends, with interrupts disabled
    | CountDown               // it decrements tx_pending
    | Arrive(n: nat)          // words reach the receive FIFO
    | RxData                  // almost-full interrupt
    | RxReady                 // packet-ready interrupt
    | Forward                 // it forwards a received frame, with interrupts disabled

  /** When a step can be taken.  A frame is sent only when the previous one is complete at the receiver. */
  predicate Enabled(ps: seq<seq<Byte>>, s: Sys, step: Step) {
    match step
    case HostByte => s.packet < |ps| && s.stray == []
    case Noise(b) => s.offset == 0 && s.stray == [] && b != P.packetHeader
    case Damage(body) =>
      s.offset == 0 && s.stray == [] && |body| == P.packetSize && Crc(CRC8_INIT, body) != 0
    case StrayByte => s.stray != []
    case DataIrq(_) => true
    case ReadPending => s.pc == Top
    case ReadAgain => s.pc == SawFew
    case ReadBusy => s.pc == SawOne
    case Transmit => s.pc == Go && !s.inFlight && s.sent < |ps|
    case CountDown => s.pc == Sent
    case Arrive(n) => n <= |s.air|
    case RxData => true
    case RxReady => s.inFlight && s.air == []
    case Forward => s.out.todo == 0
  }

  /** The byte that a control interrupt brings. */
  predicate Brings(ps: seq<seq<Byte>>, s: Sys, step: Step, byte: Byte)
    requires AllSendable(ps) && s.Wf(ps) && Enabled(ps, s, step)
  {
    match step
    case HostByte => byte == PacketByte(ps[s.packet], s.offset)
    case Noise(b) => byte == b
    case Damage(_) => byte == P.packetHeader
    case StrayByte => byte == s.stray[0]
    case _ => false
  }

  /** The word that a data interrupt would fetch. */
  function Fetched(s: Sys, junk: Word): Word
    requires s.rx.Wf()
  {
    if s.rx.cursor < |s.rx.Written()| then s.rx.Written()[s.rx.cursor] else junk
  }

  /** The state after the receive branch. */
  function ForwardState(s: Sys): Sys
    requires s.rx.Wf()
  {
    var accepted := s.rx.ready != [] && Accepted(s.rx.ready[0]);
    s.(rx := ForwardRx(s.rx), out := ForwardOut(s.rx, s.out),
       past := if accepted && s.rx.done != [] then s.past + [s.out.dumped] else s.past)
  }

  function Next(ps: seq<seq<Byte>>, s: Sys, step: Step): Sys
    requires AllSendable(ps) && s.Wf(ps) && Enabled(ps, s, step)
  {
    match step
    case HostByte =>
      var (k, off) := Advance(ps, s.packet, s.offset);
      s.(host := CtrlByte(s.host, PacketByte(ps[s.packet], s.offset)), packet := k, offset := off)
    case Noise(b) => s.(host := CtrlByte(s.host, b))
    case Damage(body) => s.(host := CtrlByte(s.host, P.packetHeader), stray := body)
    case StrayByte => s.(host := CtrlByte(s.host, s.stray[0]), stray := s.stray[1..])
    case DataIrq(junk) =>
      s.(out := SpiData.Step(s.out, Fetched(s, junk)),
         log := s.log + SpiData.Sent(s.out, Pull(Fetched(s, junk))),
         rx := if s.out.Fetches() && s.out.fromRx then s.rx.(cursor := s.rx.cursor + 1) else s.rx)
    case ReadPending => s.(pc := if s.host.pending > 1 then Go else SawFew)
    case ReadAgain => s.(pc := if s.host.pending == 1 then SawOne else Top)
    case ReadBusy => s.(pc := if s.host.loading == 0 then Go else Top)
    case Transmit =>
      s.(pc := Sent, sent := s.sent + 1, frames := s.frames + [SentFrame(s.host, s.info)],
         announced := s.announced + [Announced(ps, s.packet, s.offset, s.sent)],
         air := AirFrame(s.host, s.info), inFlight := true,
         info := AfterSend(s.info, PacketLength(s.host)), host := AfterFrame(s.host))
    case CountDown => s.(pc := Top, host := s.host.(pending := s.host.pending - 1))
    case Arrive(n) => s.(fifo := s.fifo + s.air[..n], air := s.air[n..])
    case RxData => s.(rx := Absorb(s.rx, s.fifo), fifo := [])
    case RxReady => s.(rx := Close(Absorb(s.rx, s.fifo)), fifo := [], inFlight := false)
    case Forward => ForwardState(s)
  }

  /** Neither ring has been overrun where it is about to be read. */
  predicate NoOverrun(ps: seq<seq<Byte>>, s: Sys)
    requires AllSendable(ps) && s.Wf(ps)
  {
    && TxIntact(ps, s.packet, s.offset, s.sent)
    && s.rx.Intact(|Flat(s.rx.done)|)
    && (s.out.todo > 0 ==> s.rx.Intact(s.rx.cursor))
  }

  // What each part of the state is, in terms of the host's list of payloads.

  /** The header information in force after `i` frames. */
  function InfoAt(info: HeaderInfo, ps: seq<seq<Byte>>, i: nat): HeaderInfo
    requires AllSendable(ps) && i <= |ps|
  {
    if i == 0 then info else AfterSend(InfoAt(info, ps, i - 1), ByteOf(|ps[i - 1]|))
  }

  lemma {:induction false} InfoInRange(info: HeaderInfo, ps: seq<seq<Byte>>, i: nat)
    requires AllSendable(ps) && i <= |ps| && info.InRange()
    ensures InfoAt(info, ps, i).InRange()
  {
    if i > 0 {
      InfoInRange(info, ps, i - 1);
    }
  }

  /** Packets loaded, the one under way included. */
  function Opened(s: Sys): nat {
    if s.offset > P.packetSize then s.packet + 1 else s.packet
  }

  /** The parser between packets: idle, or inside a damaged packet that its CRC will reject. */
  predicate StrayOk(stray: seq<Byte>, offset: nat, got: Option<seq<Byte>>) {
    if stray == [] then offset == 0 ==> got == None
    else offset == 0 && got.Some? && |got.value| + |stray| == P.packetSize && Crc(CRC8_INIT, got.value + stray) != 0
  }

  /** The transmit ring, its counter and the main loop's knowledge of it. */
  predicate TxOk(ps: seq<seq<Byte>>, s: Sys, base: Origin)
    requires AllSendable(ps)
  {
    && HostAt(ps, s.packet, s.offset, s.host, base) && StrayOk(s.stray, s.offset, s.host.got)
    && s.sent <= s.packet
    && Slot(s.host.pktAddr) == Cell(base.at + |Records(ps, s.sent)|)
    && s.host.pending == Opened(s) - s.sent + (if s.pc == Sent then 1 else 0)
    && (s.pc == Go ==> s.sent < s.packet)
    && (s.pc == SawOne ==> s.sent < Opened(s))
  }

  /** Frame `i` is what packet `i` becomes. */
  predicate FrameIs(ps: seq<seq<Byte>>, base: Origin, info: HeaderInfo, i: nat, announced: bool, f: Frame)
    requires AllSendable(ps) && i < |ps|
  {
    |base.cells| == RING && f == FrameOf(ps, base, i, announced, InfoAt(info, ps, i))
  }

  /** The receive ring and the frame between transmitter and receiver. */
  predicate RxOk(ps: seq<seq<Byte>>, s: Sys, base: Origin, info: HeaderInfo)
    requires AllSendable(ps)
  {
    var fs := s.rx.done + s.rx.ready;
    && s.rx.Wf() && s.sent <= |ps| && s.info == InfoAt(info, ps, s.sent)
    && |s.frames| == |s.announced| == s.sent
    && (forall i | 0 <= i < s.sent :: FrameIs(ps, base, info, i, s.announced[i], s.frames[i]))
    && if s.inFlight then
         && s.sent == |fs| + 1 && s.frames[..|fs|] == fs
         && Absorb(s.rx, s.fifo + s.air).open == [s.frames[|fs|].header] + s.frames[|fs|].payload
       else
         s.frames == fs && s.air == [] && s.fifo == [] && s.rx.open == []
  }

  /** The words of a frame, as they are dumped. */
  function DumpWords(f: Frame): seq<Word> {
    [f.header] + f.payload
  }

  function DumpSize(n: nat): nat {
    n + P.hbcHeaderSize + RX_PAD
  }

  /** The first `n` bytes of a frame's payload. */
  function Payload(f: Frame, n: nat): seq<Byte>
    requires n <= 4 * |f.payload|
  {
    Unpack(f.payload)[..n]
  }

  /** A complete dump of a frame with `n` payload bytes: the header word, the payload, and padding. */
  predicate IsDump(f: Frame, n: nat, bytes: seq<Byte>) {
    && |bytes| == DumpSize(n) && n <= 4 * |f.payload|
    && bytes[..4] == Unpack([f.header])
    && bytes[4..4 + n] == Payload(f, n)
  }

  /** The dump under way, or just finished, of a frame. */
  predicate Dumping(f: Frame, n: nat, o: OutState) {
    |o.dumped| + o.todo == DumpSize(n) && Agree(o.grabbed, DumpWords(f))
  }

  /** The output: every released frame has been dumped, the last one perhaps in part. */
  predicate OutOk(ps: seq<seq<Byte>>, s: Sys) {
    var d := |s.rx.done|;
    && s.rx.Wf() && s.out.Wf() && s.out.reply == [] && (s.out.ack != [] ==> s.out.todo > 0)
    && d <= |ps| && d <= |s.frames| && |s.past| == (if d == 0 then 0 else d - 1)
    && (forall i | 0 <= i < |s.past| :: IsDump(s.frames[i], |ps[i]|, s.past[i]))
    && if d == 0 then s.out.todo == 0
       else
         && Dumping(s.frames[d - 1], |ps[d - 1]|, s.out)
         && (s.out.todo > 0 ==>
               s.out.fromRx && s.rx.cursor == |Flat(s.rx.done[..d - 1])| + 1 + |s.out.grabbed|)
  }

  /** The announcement of a packet: the acknowledgement with its length. */
  function Announcement(p: seq<Byte>): (a: seq<Byte>)
    requires Sendable(p)
    ensures |a| == P.replySize
  {
    Tail(ReplyPacket(P.rxPacket, ByteOf(|p|)), P.replySize, P.replySize)
  }

  /** What is written for the first `k` packets: for each its announcement and then its dump. */
  function History(ps: seq<seq<Byte>>, dumps: seq<seq<Byte>>, k: nat): seq<(Kind, Byte)>
    requires AllSendable(ps) && k <= |dumps| && k <= |ps|
  {
    if k == 0 then []
    else History(ps, dumps, k - 1) + Tagged(Ack, Announcement(ps[k - 1])) + Tagged(Dump, dumps[k - 1])
  }

  /** What is left of the announcement `a`, and what has gone out of it. */
  predicate IsLeft(a: seq<Byte>, left: seq<Byte>) {
    |left| <= |a| && left == a[|a| - |left|..]
  }

  function Gone(a: seq<Byte>, left: seq<Byte>): seq<Byte>
    requires IsLeft(a, left)
  {
    a[..|a| - |left|]
  }

  /** Everything written to the host: what the packets before the latest made, and what the latest has made so far. */
  predicate LogOk(ps: seq<seq<Byte>>, s: Sys)
    requires AllSendable(ps)
  {
    var d := |s.rx.done|;
    && d <= |ps| && |s.past| == (if d == 0 then 0 else d - 1) && (s.out.todo == 0 ==> s.out.ack == [])
    && if d == 0 then s.log == [] && s.out.ack == []
       else
         var a := Announcement(ps[d - 1]);
         && IsLeft(a, s.out.ack) && (s.out.ack != [] ==> s.out.dumped == [])
         && s.log == History(ps, s.past, d - 1) + Tagged(Ack, Gone(a, s.out.ack)) + Tagged(Dump, s.out.dumped)
  }

  predicate Inv(ps: seq<seq<Byte>>, s: Sys, base: Origin, info: HeaderInfo)
    requires AllSendable(ps)
  {
    TxOk(ps, s, base) && RxOk(ps, s, base, info) && OutOk(ps, s) && LogOk(ps, s)
  }

  // Transmit side.

  lemma HostKeepsTx(ps: seq<seq<Byte>>, s: Sys, base: Origin)
    requires AllSendable(ps) && s.Wf(ps) && Enabled(ps, s, HostByte) && TxOk(ps, s, base)
    ensures TxOk(ps, Next(ps, s, HostByte), base)
  {
    hide HostAt, Records, Slot, Cell, CtrlByte;
    ByteArrives(ps, s.packet, s.offset, s.host, base);
  }

  /** Bytes between packets change nothing but the parser's buffer, and a damaged packet is dropped. */
  lemma StrayIgnored(ps: seq<seq<Byte>>, s: Sys, base: Origin, step: Step)
    requires AllSendable(ps) && s.Wf(ps) && Enabled(ps, s, step) && TxOk(ps, s, base)
    requires step.Noise? || step.Damage? || step.StrayByte?
    ensures var t := Next(ps, s, step);
      t == s.(host := s.host.(got := t.host.got), stray := t.stray) && StrayOk(t.stray, t.offset, t.host.got)
  {
    hide Records, Slot, Cell, Holds, Stored, Carry, Dispatch;
    if step.Damage? {
      assert [] + step.body == step.body;
    } else if step.StrayByte? {
      var g := s.host.got.value;
      assert g + [s.stray[0]] + s.stray[1..] == g + s.stray;
      assert |s.stray| == 1 ==> g + [s.stray[0]] == g + s.stray;
    }
  }

  lemma BufferAside(ps: seq<seq<Byte>>, k: nat, s: HostState, t: HostState, base: Origin)
    requires AllSendable(ps) && HostAt(ps, k, 0, s, base) && t == s.(got := t.got) && t.Wf()
    ensures HostAt(ps, k, 0, t, base)
  {
    hide Holds, Stored, Slot, Cell, Carry;
  }

  lemma StrayKeepsTx(ps: seq<seq<Byte>>, s: Sys, base: Origin, step: Step)
    requires AllSendable(ps) && s.Wf(ps) && Enabled(ps, s, step) && TxOk(ps, s, base)
    requires step.Noise? || step.Damage? || step.StrayByte?
    ensures TxOk(ps, Next(ps, s, step), base)
  {
    hide HostAt, Records, Slot, Cell, CtrlByte;
    StrayIgnored(ps, s, base, step);
    BufferAside(ps, s.packet, s.host, Next(ps, s, step).host, base);
  }

  /** No load is under way between packets and while a command is being received. */
  lemma NotLoading(ps: seq<seq<Byte>>, s: Sys, base: Origin)
    requires AllSendable(ps) && TxOk(ps, s, base) && s.offset <= P.packetSize
    ensures s.host.loading == 0
  {
    hide Records, Slot, Cell, Holds, Stored, Carry, TxBody;
  }

  /** The guard is safe although its reads are not atomic: a packet is only sent when it is complete. */
  lemma GuardKeepsTx(ps: seq<seq<Byte>>, s: Sys, base: Origin, step: Step)
    requires AllSendable(ps) && s.Wf(ps) && Enabled(ps, s, step) && TxOk(ps, s, base)
    requires step.ReadPending? || step.ReadAgain? || step.ReadBusy?
    ensures TxOk(ps, Next(ps, s, step), base)
  {
    hide HostAt, StrayOk, Records, Slot, Cell, HostState.Wf, RxView.Wf, OutState.Wf;
    LoadingMeansOpen(ps, s, base);
  }

  /** While the newest packet is not complete, a load is under way. */
  lemma LoadingMeansOpen(ps: seq<seq<Byte>>, s: Sys, base: Origin)
    requires AllSendable(ps) && TxOk(ps, s, base)
    ensures s.offset > P.packetSize ==> s.host.loading > 0
  {
    hide Records, Slot, Cell, Holds, Stored, Carry, TxBody, RestOf;
  }

  lemma CountDownKeepsTx(ps: seq<seq<Byte>>, s: Sys, base: Origin)
    requires AllSendable(ps) && s.Wf(ps) && Enabled(ps, s, CountDown) && TxOk(ps, s, base)
    ensures TxOk(ps, Next(ps, s, CountDown), base)
  {
    hide HostAt, StrayOk, Records, Slot, Cell, HostState.Wf, RxView.Wf, OutState.Wf;
    PendingAside(ps, s, base);
  }

  lemma PendingAside(ps: seq<seq<Byte>>, s: Sys, base: Origin)
    requires AllSendable(ps) && HostAt(ps, s.packet, s.offset, s.host, base)
    ensures HostAt(ps, s.packet, s.offset, s.host.(pending := s.host.pending - 1), base)
  {
    hide Records, Slot, Cell, Holds, Stored, Carry, TxBody, RestOf;
  }

  lemma TransmitKeepsTx(ps: seq<seq<Byte>>, s: Sys, base: Origin)
    requires AllSendable(ps) && s.Wf(ps) && Enabled(ps, s, Transmit) && TxOk(ps, s, base) && NoOverrun(ps, s)
    ensures TxOk(ps, Next(ps, s, Transmit), base)
  {
    hide HostAt, Records, Slot, Cell, SentFrame, AirFrame, AfterFrame, RxView.Wf, OutState.Wf, HostState.Wf, At, AfterSend, TxIntact,
      Stored, FrameOf, StrayOk, PacketLength, Carry, Announced;
    SendsPacket(ps, s.packet, s.offset, s.host, base, s.sent, s.info);
    AfterFrameKeeps(s.host);
  }

  lemma AfterFrameKeeps(s: HostState)
    requires s.Wf()
    ensures AfterFrame(s) == s.(pktAddr := AfterFrame(s).pktAddr)
  {}

  /** The main loop builds its frame from the oldest packet. */
  lemma TransmitsOldest(ps: seq<seq<Byte>>, s: Sys, base: Origin)
    requires AllSendable(ps) && s.Wf(ps) && TxOk(ps, s, base) && s.pc == Go && NoOverrun(ps, s)
    ensures s.sent < |ps| && |base.cells| == RING && PacketLength(s.host) == ByteOf(|ps[s.sent]|)
    ensures SentFrame(s.host, s.info) == FrameOf(ps, base, s.sent, Announced(ps, s.packet, s.offset, s.sent), s.info)
  {
    hide HostAt, StrayOk, Records, Slot, Cell, SentFrame, FrameOf, HostState.Wf, RxView.Wf, OutState.Wf, TxIntact, PacketLength,
      Announced;
    SendsPacket(ps, s.packet, s.offset, s.host, base, s.sent, s.info);
  }

  // Receive side.

  lemma TransmitIs(ps: seq<seq<Byte>>, s: Sys, base: Origin)
    requires AllSendable(ps) && s.Wf(ps) && Enabled(ps, s, Transmit) && TxOk(ps, s, base) && NoOverrun(ps, s)
    ensures |base.cells| == RING
    ensures var t, bit := Next(ps, s, Transmit), Announced(ps, s.packet, s.offset, s.sent);
      var f := FrameOf(ps, base, s.sent, bit, s.info);
      && t.rx == s.rx && t.fifo == s.fifo && t.inFlight && t.sent == s.sent + 1
      && t.frames == s.frames + [f] && t.announced == s.announced + [bit]
      && t.air == OnAir(f, s.info.scramblerSeed != 0) && t.info == AfterSend(s.info, ByteOf(|ps[s.sent]|))
  {
    hide TxOk, SentFrame, AfterFrame, RxView.Wf, OutState.Wf, HostState.Wf, NoOverrun, AfterSend, PacketLength, At, FrameOf, OnAir,
      Announced;
    TransmitsOldest(ps, s, base);
  }

  lemma FrameAbsorbed(v: RxView, ps: seq<seq<Byte>>, base: Origin, i: nat, bit: bool, info: HeaderInfo)
    requires AllSendable(ps) && i < |ps| && |base.cells| == RING && v.open == [] && info.InRange()
    ensures var f := FrameOf(ps, base, i, bit, info);
      Absorb(v, OnAir(f, info.scramblerSeed != 0)).open == DumpWords(f)
  {
    hide Absorb, OnAir, HeaderWord, HeaderInfo.InRange, FrameWords, ByteOf;
    LengthInRange(info, ByteOf(|ps[i]|));
    OnAirAbsorbed(v, FrameOf(ps, base, i, bit, info), info.(pdsuLength := ByteOf(|ps[i]|)));
  }

  lemma TransmitKeepsRx(ps: seq<seq<Byte>>, s: Sys, base: Origin, info: HeaderInfo)
    requires AllSendable(ps) && s.Wf(ps) && TxOk(ps, s, base) && RxOk(ps, s, base, info) && info.InRange()
    requires Enabled(ps, s, Transmit) && NoOverrun(ps, s)
    ensures RxOk(ps, Next(ps, s, Transmit), base, info)
  {
    hide Next, TxOk, OnAir, Absorb, HeaderInfo.InRange, RxView.Wf, OutState.Wf, HostState.Wf, At, NoOverrun, AfterSend, FrameOf,
      ByteOf, Announced;
    TransmitIs(ps, s, base);
    InfoInRange(info, ps, s.sent);
    var bit := Announced(ps, s.packet, s.offset, s.sent);
    var f := FrameOf(ps, base, s.sent, bit, s.info);
    FrameAbsorbed(s.rx, ps, base, s.sent, bit, s.info);
    var w := OnAir(f, s.info.scramblerSeed != 0);
    assert [] + w == w;
    assert (s.frames + [f])[..s.sent] == s.frames;
  }

  lemma ArriveKeepsRx(ps: seq<seq<Byte>>, s: Sys, base: Origin, info: HeaderInfo, n: nat)
    requires AllSendable(ps) && s.Wf(ps) && Enabled(ps, s, Arrive(n)) && RxOk(ps, s, base, info)
    ensures RxOk(ps, Next(ps, s, Arrive(n)), base, info)
  {
    hide Absorb, FrameIs, Storable, InfoAt;
    assert s.fifo + s.air[..n] + s.air[n..] == s.fifo + s.air;
  }

  lemma RxDataKeepsRx(ps: seq<seq<Byte>>, s: Sys, base: Origin, info: HeaderInfo)
    requires AllSendable(ps) && s.Wf(ps) && RxOk(ps, s, base, info)
    ensures RxOk(ps, Next(ps, s, RxData), base, info)
  {
    hide FrameIs, Storable, InfoAt, Scramble, SeedBit;
    AbsorbAppend(s.rx, s.fifo, s.air);
    assert [] + s.air == s.air;
  }

  lemma RxReadyKeepsRx(ps: seq<seq<Byte>>, s: Sys, base: Origin, info: HeaderInfo)
    requires AllSendable(ps) && s.Wf(ps) && Enabled(ps, s, RxReady) && RxOk(ps, s, base, info)
    ensures RxOk(ps, Next(ps, s, RxReady), base, info)
  {
    hide FrameIs, Absorb, Close, Flat, FrameBytes, InfoAt;
    var fs := s.rx.done + s.rx.ready;
    var f := s.frames[|fs|];
    assert s.fifo + [] == s.fifo;
    AbsorbOpens(s.rx, s.fifo);
    CloseAdds(Absorb(s.rx, s.fifo), f);
    FrameSmall(ps, base, info, |fs|, s.announced[|fs|], f);
    assert s.rx.done + (s.rx.ready + [f]) == fs + [f] == s.frames;
  }

  lemma AbsorbOpens(v: RxView, ws: seq<Word>)
    ensures Absorb(v, ws) == v.(open := Absorb(v, ws).open)
  {}

  lemma CloseAdds(v: RxView, f: Frame)
    requires v.open == [f.header] + f.payload
    ensures Close(v) == v.(ready := v.ready + [f], open := [])
  {}

  lemma FrameSmall(ps: seq<seq<Byte>>, base: Origin, info: HeaderInfo, i: nat, bit: bool, f: Frame)
    requires AllSendable(ps) && i < |ps| && FrameIs(ps, base, info, i, bit, f)
    ensures |f.payload| <= 64 && |ps[i]| <= 4 * |f.payload| < |ps[i]| + 4 && FrameBytes(f) < TWO32
    ensures |base.cells| == RING
  {
    hide HeaderWord, InfoAt, WordsOf, Carry, TailWord;
  }

  lemma ForwardKeepsRx(ps: seq<seq<Byte>>, s: Sys, base: Origin, info: HeaderInfo)
    requires AllSendable(ps) && s.Wf(ps) && Enabled(ps, s, Forward) && RxOk(ps, s, base, info)
    ensures RxOk(ps, Next(ps, s, Forward), base, info)
  {
    hide FrameIs, InfoAt, Flat, Accepted, SeedBit, Scramble;
    var t := Next(ps, s, Forward);
    if s.rx.ready != [] {
      assert t.rx.done + t.rx.ready == s.rx.done + s.rx.ready;
    }
  }

  lemma DataIrqKeepsRx(ps: seq<seq<Byte>>, s: Sys, base: Origin, info: HeaderInfo, junk: Word)
    requires AllSendable(ps) && s.Wf(ps) && RxOk(ps, s, base, info)
    ensures RxOk(ps, Next(ps, s, DataIrq(junk)), base, info)
  {
    hide FrameIs, InfoAt, Flat, SpiData.Step, Fetched, SeedBit, Scramble;
  }

  // Output.

  /** A drained dump of a frame carries its header word and its payload. */
  lemma DrainedIsDump(f: Frame, n: nat, o: OutState)
    requires o.Wf() && Dumping(f, n, o) && o.todo == 0 && n <= 4 * |f.payload|
    ensures IsDump(f, n, o.dumped)
  {
    hide Agree, BytesOf, Unpack;
    BytesAgree(o.grabbed, o.dumped, DumpWords(f), 4 + n);
    UnpackAppend([f.header], f.payload);
    var b := o.dumped[..4 + n];
    assert b == Unpack([f.header]) + Payload(f, n);
    assert o.dumped[..4] == b[..4] && o.dumped[4..4 + n] == b[4..];
  }

  /** The released frames are the first ones sent. */
  lemma DoneIs(ps: seq<seq<Byte>>, s: Sys, base: Origin, info: HeaderInfo, i: nat)
    requires AllSendable(ps) && RxOk(ps, s, base, info) && i < |s.rx.done| + |s.rx.ready|
    ensures i < s.sent <= |ps| && |s.frames| == |s.announced| == s.sent && FrameIs(ps, base, info, i, s.announced[i], s.frames[i])
    ensures (s.rx.done + s.rx.ready)[i] == s.frames[i]
  {
    hide FrameIs, Absorb, InfoAt, RxView.Wf;
  }

  /** Each word the dump fetches is the next word of the frame. */
  lemma FetchedWord(ps: seq<seq<Byte>>, s: Sys, base: Origin, info: HeaderInfo, junk: Word)
    requires AllSendable(ps) && s.Wf(ps) && RxOk(ps, s, base, info) && OutOk(ps, s)
    requires |s.rx.done| > 0 && s.out.todo > 0
    ensures var g, ws := |s.out.grabbed|, DumpWords(s.frames[|s.rx.done| - 1]);
      g < |ws| ==> s.rx.cursor < |s.rx.Written()| && Fetched(s, junk) == ws[g]
  {
    hide RxOk, FrameIs, Agree, IsDump, OutState.Wf, FrameBytes, WordOf, Storable;
    var d := |s.rx.done|;
    DoneIs(ps, s, base, info, d - 1);
    var f := s.frames[d - 1];
    assert s.rx.done[d - 1] == f;
    FrameSmall(ps, base, info, d - 1, s.announced[d - 1], f);
    if |s.out.grabbed| < 1 + |f.payload| {
      ImageWord(f, |s.out.grabbed|);
    }
  }

  lemma ImageWord(f: Frame, g: nat)
    requires FrameBytes(f) < TWO32 && g < 1 + |f.payload|
    ensures g + 1 < |FrameImage(f)| && FrameImage(f)[1 + g] == ([f.header] + f.payload)[g]
  {}

  /** Every frame sent is accepted by the receiver. */
  lemma FrameAccepted(ps: seq<seq<Byte>>, base: Origin, info: HeaderInfo, i: nat, bit: bool, f: Frame)
    requires AllSendable(ps) && i < |ps| && info.InRange() && FrameIs(ps, base, info, i, bit, f)
    ensures Accepted(f) && ByteValue(LengthField(f.header)) == |ps[i]| && LengthField(f.header) == ByteOf(|ps[i]|)
  {
    hide HeaderWord, HeaderInfo.InRange, WordsOf, ByteOf, ByteValue, LengthField, CrcOk, FrameWords, InfoAt;
    FrameSmall(ps, base, info, i, bit, f);
    InfoInRange(info, ps, i);
    LengthInRange(InfoAt(info, ps, i), ByteOf(|ps[i]|));
    HeaderRecovered(InfoAt(info, ps, i).(pdsuLength := ByteOf(|ps[i]|)));
  }

  lemma StepDump(f: Frame, n: nat, o: OutState, w: Word)
    requires o.Wf() && Dumping(f, n, o)
    requires |o.grabbed| < |DumpWords(f)| && o.Fetches() ==> w == DumpWords(f)[|o.grabbed|]
    ensures Dumping(f, n, SpiData.Step(o, w))
  {
    hide DumpWords, Octet, BytesOf, U32, DumpSize;
  }

  lemma DataIrqKeepsOut(ps: seq<seq<Byte>>, s: Sys, base: Origin, info: HeaderInfo, junk: Word)
    requires AllSendable(ps) && s.Wf(ps) && Enabled(ps, s, DataIrq(junk)) && RxOk(ps, s, base, info) && OutOk(ps, s)
    ensures OutOk(ps, Next(ps, s, DataIrq(junk)))
  {
    hide RxOk, DumpWords, Fetched, Dumping, IsDump, Flat, OutState.Wf, Octet, U32, RxView.Written;
    var w := Fetched(s, junk);
    StepWf(s.out, w);
    IndexIs(s.out);
    if |s.rx.done| > 0 {
      if s.out.todo > 0 {
        FetchedWord(ps, s, base, info, junk);
      }
      StepDump(s.frames[|s.rx.done| - 1], |ps[|s.rx.done| - 1]|, s.out, w);
    }
  }

  lemma StartsDump(f: Frame, n: nat, o: OutState, ack: seq<Byte>)
    requires o.Wf()
    ensures var t := StartDump(o.(ack := ack), DumpSize(n), true);
      t.Wf() && Dumping(f, n, t) && t.todo > 0 && t.grabbed == [] && t.fromRx && t.reply == o.reply
  {}

  /** Forwarding an accepted frame releases it and starts its dump behind the marker. */
  lemma ForwardsOne(v: RxView, o: OutState, n: nat)
    requires v.Wf() && o.Wf() && v.ready != [] && Accepted(v.ready[0]) && ByteValue(LengthField(v.ready[0].header)) == n
    ensures var f, w, t := v.ready[0], ForwardRx(v), ForwardOut(v, o);
      && w.Wf() && w.done == v.done + [f] && w.cursor == |Flat(v.done)| + 1
      && t.Wf() && Dumping(f, n, t) && t.todo > 0 && t.grabbed == [] && t.fromRx && t.reply == o.reply
  {
    hide Accepted, LengthField, ByteValue, Tail, ReplyPacket, Flat, FrameImage;
    var ack := Tail(ReplyPacket(P.rxPacket, LengthField(v.ready[0].header)), P.replySize, P.replySize);
    StartsDump(v.ready[0], n, o, ack);
    ReleaseImage(AtOldest(v));
  }

  lemma ForwardKeepsOut(ps: seq<seq<Byte>>, s: Sys, base: Origin, info: HeaderInfo)
    requires AllSendable(ps) && s.Wf(ps) && Enabled(ps, s, Forward) && RxOk(ps, s, base, info) && OutOk(ps, s) && info.InRange()
    ensures OutOk(ps, Next(ps, s, Forward))
  {
    hide RxOk, Dumping, IsDump, Flat, OutState.Wf, HostState.Wf, RxView.Wf, Accepted, FrameIs, HeaderInfo.InRange, ForwardRx,
      ForwardOut;
    var d, t := |s.rx.done|, Next(ps, s, Forward);
    if s.rx.ready == [] {
      ForwardsNone(s.rx, s.out);
    } else {
      DoneIs(ps, s, base, info, d);
      var f := s.frames[d];
      FrameAccepted(ps, base, info, d, s.announced[d], f);
      ForwardsOne(s.rx, s.out, |ps[d]|);
      assert (s.rx.done + [f])[..d] == s.rx.done;
      if d > 0 {
        DoneIs(ps, s, base, info, d - 1);
        FrameSmall(ps, base, info, d - 1, s.announced[d - 1], s.frames[d - 1]);
        DrainedIsDump(s.frames[d - 1], |ps[d - 1]|, s.out);
      }
    }
  }

  lemma ForwardsNone(v: RxView, o: OutState)
    requires v.Wf() && v.ready == []
    ensures ForwardRx(v).Wf() && ForwardRx(v).done == v.done && ForwardOut(v, o) == o
  {}

  // What has been written.

  lemma TaggedSnoc(kind: Kind, bytes: seq<Byte>, b: Byte)
    ensures Tagged(kind, bytes + [b]) == Tagged(kind, bytes) + [(kind, b)]
  {}

  /** One interrupt writes the next byte of the announcement, then those of the dump. */
  lemma LogStep(h: seq<(Kind, Byte)>, a: seq<Byte>, o: OutState, w: Word)
    requires o.index < 4 && o.reply == [] && IsLeft(a, o.ack) && (o.ack != [] ==> o.dumped == [])
    ensures var t := SpiData.Step(o, w);
      && IsLeft(a, t.ack) && (t.ack != [] ==> t.dumped == [])
      && (t.todo == 0 ==> o.todo == 0 || t.ack == [])
      && h + Tagged(Ack, Gone(a, o.ack)) + Tagged(Dump, o.dumped) + SpiData.Sent(o, Pull(w))
         == h + Tagged(Ack, Gone(a, t.ack)) + Tagged(Dump, t.dumped)
  {
    hide Octet, U32, Tagged;
    var k := |a| - |o.ack|;
    NothingTagged(Dump);
    if o.ack != [] {
      assert a[..k + 1] == a[..k] + [o.ack[0]];
      TaggedSnoc(Ack, a[..k], o.ack[0]);
    } else if o.todo > 0 {
      TaggedSnoc(Dump, o.dumped, Octet(if o.index == 0 then w else o.word, o.index));
    }
  }

  lemma NothingTagged(kind: Kind)
    ensures Tagged(kind, []) == []
  {}

  lemma DataIrqKeepsLog(ps: seq<seq<Byte>>, s: Sys, junk: Word)
    requires AllSendable(ps) && s.Wf(ps) && Enabled(ps, s, DataIrq(junk)) && OutOk(ps, s) && LogOk(ps, s)
    ensures LogOk(ps, Next(ps, s, DataIrq(junk)))
  {
    hide Dumping, IsDump, Fetched, SpiData.Step, SpiData.Sent, Tagged, Announcement, Flat, History, OutState.Wf, HostState.Wf, RxView.Wf,
      Next, Enabled, Sys.Wf;
    IndexIs(s.out);
    var d, w := |s.rx.done|, Fetched(s, junk);
    DataIrqWrites(ps, s, junk);
    if d > 0 {
      LogStep(History(ps, s.past, d - 1), Announcement(ps[d - 1]), s.out, w);
    } else {
      NothingSent(s.out, w);
    }
  }

  lemma DataIrqWrites(ps: seq<seq<Byte>>, s: Sys, junk: Word)
    requires AllSendable(ps) && s.Wf(ps) && Enabled(ps, s, DataIrq(junk))
    ensures var t := Next(ps, s, DataIrq(junk));
      && t.out == SpiData.Step(s.out, Fetched(s, junk)) && t.log == s.log + SpiData.Sent(s.out, Pull(Fetched(s, junk)))
      && t.past == s.past && t.rx.done == s.rx.done
  {
    hide SpiData.Step, SpiData.Sent, Fetched, HostState.Wf, RxView.Wf, OutState.Wf;
  }

  lemma NothingSent(o: OutState, w: Word)
    requires o.index < 4 && o.ack == [] && o.reply == [] && o.todo == 0
    ensures SpiData.Step(o, w) == o && SpiData.Sent(o, Pull(w)) == []
  {}

  /** Forwarding queues the announcement of the packet, and nothing is written yet. */
  lemma ForwardsLog(v: RxView, o: OutState, p: seq<Byte>)
    requires v.Wf() && Sendable(p) && v.ready != [] && Accepted(v.ready[0]) && LengthField(v.ready[0].header) == ByteOf(|p|)
    ensures ForwardRx(v).done == v.done + [v.ready[0]]
    ensures ForwardOut(v, o).ack == Announcement(p) && ForwardOut(v, o).dumped == [] && ForwardOut(v, o).todo > 0
  {
    hide Accepted, LengthField, ByteValue, Tail, ReplyPacket, Flat, ByteOf;
  }

  lemma HistoryGrows(ps: seq<seq<Byte>>, dumps: seq<seq<Byte>>, dump: seq<Byte>, k: nat)
    requires AllSendable(ps) && k <= |dumps| && k <= |ps|
    ensures History(ps, dumps + [dump], k) == History(ps, dumps, k)
  {
    hide Tagged, Announcement;
    if k > 0 {
      HistoryGrows(ps, dumps, dump, k - 1);
    }
  }

  lemma ForwardKeepsLog(ps: seq<seq<Byte>>, s: Sys, base: Origin, info: HeaderInfo)
    requires AllSendable(ps) && s.Wf(ps) && Enabled(ps, s, Forward) && RxOk(ps, s, base, info) && OutOk(ps, s) && LogOk(ps, s)
    requires info.InRange()
    ensures LogOk(ps, Next(ps, s, Forward))
  {
    hide RxOk, Dumping, IsDump, Flat, OutState.Wf, HostState.Wf, RxView.Wf, Accepted, FrameIs, HeaderInfo.InRange, ForwardRx,
      ForwardOut, Tagged, Announcement, History;
    var d := |s.rx.done|;
    if s.rx.ready == [] {
      ForwardsNone(s.rx, s.out);
    } else {
      DoneIs(ps, s, base, info, d);
      FrameAccepted(ps, base, info, d, s.announced[d], s.frames[d]);
      ForwardsLog(s.rx, s.out, ps[d]);
      LatestLogged(ps, s);
      LogStarts(ps, Next(ps, s, Forward));
    }
  }

  /** A finished dump completes the history of its packet. */
  lemma LatestLogged(ps: seq<seq<Byte>>, s: Sys)
    requires AllSendable(ps) && LogOk(ps, s) && s.out.ack == []
    ensures var d, dumps := |s.rx.done|, Dumps(s);
      d <= |dumps| && d <= |ps| && s.log == History(ps, dumps, d)
  {
    hide Tagged, Announcement, History, LogOk;
    var d := |s.rx.done|;
    if d > 0 {
      LogIs(ps, s);
      HistoryGrows(ps, s.past, s.out.dumped, d - 1);
      HistoryStep(ps, Dumps(s), d);
    } else {
      NothingLogged(ps, s);
      HistoryNone(ps, Dumps(s));
    }
  }

  lemma NothingLogged(ps: seq<seq<Byte>>, s: Sys)
    requires AllSendable(ps) && LogOk(ps, s) && s.rx.done == []
    ensures s.log == [] && s.past == []
  {}

  lemma LogIs(ps: seq<seq<Byte>>, s: Sys)
    requires AllSendable(ps) && LogOk(ps, s) && s.out.ack == [] && s.rx.done != []
    ensures |s.rx.done| <= |ps| && |s.past| == |s.rx.done| - 1
    ensures var k := |s.rx.done| - 1;
      s.log == History(ps, s.past, k) + Tagged(Ack, Announcement(ps[k])) + Tagged(Dump, s.out.dumped)
  {
    hide Tagged, Announcement, History, IsLeft, Gone;
    NoneLeft(Announcement(ps[|s.rx.done| - 1]));
  }

  lemma NoneLeft(a: seq<Byte>)
    ensures IsLeft(a, []) && Gone(a, []) == a
  {}

  lemma HistoryNone(ps: seq<seq<Byte>>, dumps: seq<seq<Byte>>)
    requires AllSendable(ps)
    ensures History(ps, dumps, 0) == []
  {}

  lemma HistoryStep(ps: seq<seq<Byte>>, dumps: seq<seq<Byte>>, k: nat)
    requires AllSendable(ps) && 0 < k <= |dumps| && k <= |ps|
    ensures History(ps, dumps, k) == History(ps, dumps, k - 1) + Tagged(Ack, Announcement(ps[k - 1])) + Tagged(Dump, dumps[k - 1])
  {
    hide Tagged, Announcement;
  }

  lemma LogStarts(ps: seq<seq<Byte>>, t: Sys)
    requires AllSendable(ps) && var d := |t.rx.done|;
      && 0 < d <= |ps| && |t.past| == d - 1 && t.out.ack == Announcement(ps[d - 1]) && t.out.dumped == []
      && t.out.todo > 0
      && t.log == History(ps, t.past, d - 1)
    ensures LogOk(ps, t)
  {
    hide Announcement, History;
    var a := Announcement(ps[|t.rx.done| - 1]);
    assert a[0..] == a && a[..0] == [] && Tagged(Ack, []) == [] && Tagged(Dump, []) == [];
  }

  lemma KeepsLog(ps: seq<seq<Byte>>, s: Sys, base: Origin, info: HeaderInfo, step: Step)
    requires AllSendable(ps) && s.Wf(ps) && Inv(ps, s, base, info) && info.InRange() && Enabled(ps, s, step)
    ensures LogOk(ps, Next(ps, s, step))
  {
    hide Next, TxOk, RxOk, OutOk, LogOk, HeaderInfo.InRange, Sys.Wf;
    if step.Forward? {
      ForwardKeepsLog(ps, s, base, info);
    } else if step.DataIrq? {
      DataIrqKeepsLog(ps, s, step.junk);
    } else {
      OutUntouched(ps, s, step);
      SameLog(ps, s, Next(ps, s, step));
    }
  }

  lemma SameLog(ps: seq<seq<Byte>>, s: Sys, t: Sys)
    requires AllSendable(ps) && LogOk(ps, s) && t.rx.done == s.rx.done && t.out == s.out && t.past == s.past && t.log == s.log
    ensures LogOk(ps, t)
  {
    hide History, Tagged, Announcement;
  }

  // Runs.

  lemma InvIsWf(ps: seq<seq<Byte>>, s: Sys, base: Origin, info: HeaderInfo)
    requires AllSendable(ps) && Inv(ps, s, base, info)
    ensures s.Wf(ps)
  {}

  lemma KeepsTx(ps: seq<seq<Byte>>, s: Sys, base: Origin, step: Step)
    requires AllSendable(ps) && s.Wf(ps) && Enabled(ps, s, step) && TxOk(ps, s, base) && NoOverrun(ps, s)
    ensures TxOk(ps, Next(ps, s, step), base)
  {
    hide HostAt, StrayOk, NoOverrun, Records, Slot, Cell, SentFrame, AirFrame, AfterFrame, CtrlByte, Absorb, Close, ForwardRx, ForwardOut, SpiData.Step, Fetched;
    match step {
      case HostByte => HostKeepsTx(ps, s, base);
      case Noise(_) => StrayKeepsTx(ps, s, base, step);
      case Damage(_) => StrayKeepsTx(ps, s, base, step);
      case StrayByte => StrayKeepsTx(ps, s, base, step);
      case Transmit => TransmitKeepsTx(ps, s, base);
      case CountDown => CountDownKeepsTx(ps, s, base);
      case ReadPending => GuardKeepsTx(ps, s, base, step);
      case ReadAgain => GuardKeepsTx(ps, s, base, step);
      case ReadBusy => GuardKeepsTx(ps, s, base, step);
      case _ =>
    }
  }

  lemma KeepsRx(ps: seq<seq<Byte>>, s: Sys, base: Origin, info: HeaderInfo, step: Step)
    requires AllSendable(ps) && s.Wf(ps) && Inv(ps, s, base, info) && info.InRange()
    requires Enabled(ps, s, step) && NoOverrun(ps, s)
    ensures RxOk(ps, Next(ps, s, step), base, info)
  {
    hide TxOk, OutOk, NoOverrun, FrameIs, InfoAt, SentFrame, AirFrame, AfterFrame, CtrlByte, Absorb, Close, ForwardRx, ForwardOut, SpiData.Step,
      Fetched, Storable, HeaderInfo.InRange;
    match step {
      case Transmit => TransmitKeepsRx(ps, s, base, info);
      case Arrive(n) => ArriveKeepsRx(ps, s, base, info, n);
      case RxData => RxDataKeepsRx(ps, s, base, info);
      case RxReady => RxReadyKeepsRx(ps, s, base, info);
      case Forward => ForwardKeepsRx(ps, s, base, info);
      case DataIrq(junk) => DataIrqKeepsRx(ps, s, base, info, junk);
      case _ =>
    }
  }

  lemma SameOut(ps: seq<seq<Byte>>, s: Sys, t: Sys)
    requires OutOk(ps, s) && t.rx.Wf() && t.rx.done == s.rx.done && t.rx.cursor == s.rx.cursor
    requires t.out == s.out && t.past == s.past && s.frames <= t.frames
    ensures OutOk(ps, t)
  {
    hide IsDump, Dumping, OutState.Wf, Flat;
  }

  lemma ReceivingKeeps(v: RxView, ws: seq<Word>)
    ensures var a, c := Absorb(v, ws), Close(Absorb(v, ws));
      a.done == v.done && a.cursor == v.cursor && c.done == v.done && c.cursor == v.cursor
  {}

  /** The other steps leave released frames, reader and output alone. */
  lemma OutUntouched(ps: seq<seq<Byte>>, s: Sys, step: Step)
    requires AllSendable(ps) && s.Wf(ps) && Enabled(ps, s, step) && !step.Forward? && !step.DataIrq?
    ensures var t := Next(ps, s, step);
      && t.rx.done == s.rx.done && t.rx.cursor == s.rx.cursor && t.out == s.out && t.past == s.past
      && t.log == s.log && s.frames <= t.frames
  {
    hide SentFrame, AirFrame, AfterFrame, AfterSend, PacketLength, CtrlByte, PacketByte, Absorb, Close, Sys.Wf;
    ReceivingKeeps(s.rx, s.fifo);
  }

  lemma RxIsWf(ps: seq<seq<Byte>>, s: Sys, base: Origin, info: HeaderInfo)
    requires AllSendable(ps) && RxOk(ps, s, base, info)
    ensures s.rx.Wf()
  {}

  lemma KeepsOut(ps: seq<seq<Byte>>, s: Sys, base: Origin, info: HeaderInfo, step: Step)
    requires AllSendable(ps) && s.Wf(ps) && Inv(ps, s, base, info) && info.InRange()
    requires Enabled(ps, s, step) && NoOverrun(ps, s)
    ensures OutOk(ps, Next(ps, s, step))
  {
    hide Next, TxOk, RxOk, OutOk, NoOverrun, HeaderInfo.InRange, Sys.Wf;
    if step.Forward? {
      ForwardKeepsOut(ps, s, base, info);
    } else if step.DataIrq? {
      DataIrqKeepsOut(ps, s, base, info, step.junk);
    } else {
      KeepsRx(ps, s, base, info, step);
      RxIsWf(ps, Next(ps, s, step), base, info);
      OutUntouched(ps, s, step);
      SameOut(ps, s, Next(ps, s, step));
    }
  }

  /** Every step keeps every part in step with the host's list. */
  lemma InvKept(ps: seq<seq<Byte>>, s: Sys, base: Origin, info: HeaderInfo, step: Step)
    requires AllSendable(ps) && Inv(ps, s, base, info) && info.InRange()
    requires s.Wf(ps) && Enabled(ps, s, step) && NoOverrun(ps, s)
    ensures Inv(ps, Next(ps, s, step), base, info)
  {
    hide Next, TxOk, RxOk, OutOk, LogOk, NoOverrun, Enabled;
    KeepsLog(ps, s, base, info, step);
    KeepsTx(ps, s, base, step);
    KeepsRx(ps, s, base, info, step);
    KeepsOut(ps, s, base, info, step);
  }

  predicate Initial(s: Sys, info: HeaderInfo) {
    && s.host.Wf() && s.host.Idle() && s.host.part == 0
    && s.host.pending == 0 && s.host.pktAddr == s.host.loadAddr
    && s.packet == 0 && s.offset == 0 && s.stray == [] && s.pc == Top && s.info == info && s.sent == 0
    && s.frames == [] && s.announced == []
    && s.air == [] && !s.inFlight && s.fifo == []
    && s.rx.done == [] && s.rx.ready == [] && s.rx.open == [] && !s.rx.cached
    && s.out.Wf() && s.out.ack == [] && s.out.reply == [] && s.out.todo == 0 && s.past == []
    && s.log == []
  }

  /** Where the stream starts, and what memory holds before it. */
  function Start(s: Sys): Origin {
    Origin(Slot(s.host.loadAddr), s.host.cells)
  }

  lemma InitialInv(ps: seq<seq<Byte>>, s: Sys, info: HeaderInfo)
    requires AllSendable(ps) && Initial(s, info)
    ensures Inv(ps, s, Start(s), info)
  {
    CellOfSlot(s.host.loadAddr);
    assert Stored(ps, 0, 0) == [];
    assert WriteAll(s.host.cells, Slot(s.host.loadAddr), []) == s.host.cells;
  }

  /** An interleaving of steps, without overrun. */
  predicate IsRun(ps: seq<seq<Byte>>, states: seq<Sys>, steps: seq<Step>)
    requires AllSendable(ps)
  {
    && |states| == |steps| + 1
    && forall i | 0 <= i < |steps| :: states[i].Wf(ps) ==>
         Enabled(ps, states[i], steps[i]) && NoOverrun(ps, states[i]) && states[i + 1] == Next(ps, states[i], steps[i])
  }

  lemma {:induction false} RunInv(ps: seq<seq<Byte>>, states: seq<Sys>, steps: seq<Step>, info: HeaderInfo, n: nat)
    requires AllSendable(ps) && info.InRange() && IsRun(ps, states, steps) && Initial(states[0], info) && n < |states|
    ensures Inv(ps, states[n], Start(states[0]), info)
  {
    hide Inv, Next, NoOverrun, Enabled, Initial, HeaderInfo.InRange;
    if n == 0 {
      InitialInv(ps, states[0], info);
    } else {
      RunInv(ps, states, steps, info, n - 1);
      InvIsWf(ps, states[n - 1], Start(states[0]), info);
      InvKept(ps, states[n - 1], Start(states[0]), info, steps[n - 1]);
    }
  }

  // Results.

  /** The dumps so far: the finished ones and the latest. */
  function Dumps(s: Sys): seq<seq<Byte>> {
    if s.rx.done == [] then s.past else s.past + [s.out.dumped]
  }

  /** The payload inside a complete dump, between the header word and the padding. */
  function PayloadIn(dump: seq<Byte>): seq<Byte> {
    if 4 + P.hbcHeaderSize <= |dump| then dump[4..|dump| - P.hbcHeaderSize] else []
  }

  function PayloadsIn(dumps: seq<seq<Byte>>): (r: seq<seq<Byte>>)
    ensures |r| == |dumps|
  {
    seq(|dumps|, i requires 0 <= i < |dumps| => PayloadIn(dumps[i]))
  }

  /** Everything has been sent, received and drained. */
  predicate Quiet(ps: seq<seq<Byte>>, s: Sys) {
    s.packet == |ps| && s.host.pending == 0 && !s.inFlight && s.rx.ready == [] && s.out.todo == 0
  }

  /**
   * What comes out for packet `i`: the bytes of its whole words as the loader assembled them, and for a length
   * that is not a multiple of four the first bytes of the word after them.
   */
  function Expected(ps: seq<seq<Byte>>, base: Origin, i: nat, announced: bool): (q: seq<Byte>)
    requires AllSendable(ps) && i < |ps| && |base.cells| == RING
    ensures |q| == |ps[i]|
  {
    Unpack(FrameWords(ps, base, i, announced))[..|ps[i]|]
  }

  lemma DumpBrings(ps: seq<seq<Byte>>, base: Origin, info: HeaderInfo, i: nat, bit: bool, f: Frame, bytes: seq<Byte>)
    requires AllSendable(ps) && i < |ps| && FrameIs(ps, base, info, i, bit, f) && IsDump(f, |ps[i]|, bytes)
    ensures PayloadIn(bytes) == Expected(ps, base, i, bit)
  {
    hide HeaderWord, FrameWords, InfoAt, Unpack;
  }

  /** The frame about to be built is that of the oldest packet. */
  predicate SentRight(ps: seq<seq<Byte>>, s: Sys, base: Origin)
    requires AllSendable(ps) && s.Wf(ps) && s.sent < |ps|
  {
    |base.cells| == RING
    && SentFrame(s.host, s.info) == FrameOf(ps, base, s.sent, Announced(ps, s.packet, s.offset, s.sent), s.info)
  }

  /**
   * Whenever the main loop has passed its test, although an interrupt may have fired between any two of
   * its reads, the packet it is about to send is completely loaded, whatever its length, and the frame it
   * builds is that packet's: its whole words, and after them the word that `TailWord` says.
   */
  lemma SendIsSafe(ps: seq<seq<Byte>>, states: seq<Sys>, steps: seq<Step>, info: HeaderInfo, n: nat)
    requires AllSendable(ps) && info.InRange() && IsRun(ps, states, steps) && Initial(states[0], info) && n < |states|
    requires states[n].pc == Go
    ensures var s := states[n];
      && s.Wf(ps) && s.sent < s.packet <= |ps|
      && Slot(s.host.pktAddr) == Cell(Start(states[0]).at + |Records(ps, s.sent)|)
      && (NoOverrun(ps, s) ==> SentRight(ps, s, Start(states[0])))
  {
    hide *;
    var base := Start(states[0]);
    RunInv(ps, states, steps, info, n);
    InvIsWf(ps, states[n], base, info);
    GoIsSafe(ps, states[n], base, info);
  }

  lemma GoIsSafe(ps: seq<seq<Byte>>, s: Sys, base: Origin, info: HeaderInfo)
    requires AllSendable(ps) && Inv(ps, s, base, info) && s.Wf(ps) && s.pc == Go
    ensures s.sent < s.packet <= |ps| && Slot(s.host.pktAddr) == Cell(base.at + |Records(ps, s.sent)|)
    ensures NoOverrun(ps, s) ==> SentRight(ps, s, base)
  {
    hide HostAt, HostState.Wf, RxView.Wf, OutState.Wf, NoOverrun, SentRight, RxOk, OutOk, Records, Slot, Cell;
    if NoOverrun(ps, s) {
      SentIsRight(ps, s, base);
    }
  }

  lemma SentIsRight(ps: seq<seq<Byte>>, s: Sys, base: Origin)
    requires AllSendable(ps) && s.Wf(ps) && TxOk(ps, s, base) && s.pc == Go && NoOverrun(ps, s)
    ensures SentRight(ps, s, base)
  {
    hide TxOk, SentFrame, FrameOf, RxView.Wf, OutState.Wf, HostState.Wf, NoOverrun, Announced;
    TransmitsOldest(ps, s, base);
  }

  lemma Counts(ps: seq<seq<Byte>>, s: Sys, base: Origin, info: HeaderInfo)
    requires AllSendable(ps) && Inv(ps, s, base, info)
    ensures |Dumps(s)| == |s.rx.done| <= s.sent <= s.packet <= |ps|
    ensures |s.past| <= |s.rx.done| && |s.frames| == |s.announced| == s.sent
    ensures Quiet(ps, s) ==> |s.rx.done| == |ps|
  {
    hide LoaderAt, Holds, Stored, Records, Slot, Cell, FrameIs, IsDump, Dumping, Absorb, Flat, InfoAt, Carry;
    if Quiet(ps, s) {
      AtEnd(ps, s, base);
    }
  }

  lemma AtEnd(ps: seq<seq<Byte>>, s: Sys, base: Origin)
    requires AllSendable(ps) && TxOk(ps, s, base) && s.packet == |ps|
    ensures s.offset == 0
  {}

  lemma PastDelivered(ps: seq<seq<Byte>>, s: Sys, base: Origin, info: HeaderInfo, i: nat)
    requires AllSendable(ps) && RxOk(ps, s, base, info) && OutOk(ps, s) && i < |s.past|
    ensures |base.cells| == RING && PayloadIn(s.past[i]) == Expected(ps, base, i, s.announced[i])
  {
    hide RxOk, FrameIs, IsDump, Dumping, PayloadIn, OutState.Wf, Flat, Expected;
    DoneIs(ps, s, base, info, i);
    FrameSmall(ps, base, info, i, s.announced[i], s.frames[i]);
    DumpBrings(ps, base, info, i, s.announced[i], s.frames[i], s.past[i]);
  }

  lemma LatestDelivered(ps: seq<seq<Byte>>, s: Sys, base: Origin, info: HeaderInfo)
    requires AllSendable(ps) && RxOk(ps, s, base, info) && OutOk(ps, s) && s.out.todo == 0 && s.rx.done != []
    ensures var i := |s.rx.done| - 1;
      |base.cells| == RING && PayloadIn(s.out.dumped) == Expected(ps, base, i, s.announced[i])
  {
    hide RxOk, FrameIs, IsDump, Dumping, PayloadIn, OutState.Wf, Flat, Expected;
    var i := |s.rx.done| - 1;
    DoneIs(ps, s, base, info, i);
    FrameSmall(ps, base, info, i, s.announced[i], s.frames[i]);
    DrainedIsDump(s.frames[i], |ps[i]|, s.out);
    DumpBrings(ps, base, info, i, s.announced[i], s.frames[i], s.out.dumped);
  }

  /** Of a dump under way, every payload byte sent so far is in its place. */
  predicate PartSent(p: seq<Byte>, dumped: seq<Byte>) {
    forall j | 4 <= j < |dumped| && j < 4 + |p| :: dumped[j] == p[j - 4]
  }

  lemma PartDelivered(ps: seq<seq<Byte>>, s: Sys, base: Origin, info: HeaderInfo)
    requires AllSendable(ps) && RxOk(ps, s, base, info) && OutOk(ps, s) && s.rx.done != []
    ensures var i := |s.rx.done| - 1;
      |base.cells| == RING && PartSent(Expected(ps, base, i, s.announced[i]), s.out.dumped)
  {
    hide RxOk, IsDump, FrameIs, Agree, BytesOf, Unpack, Flat, Expected, PartSent;
    var i := |s.rx.done| - 1;
    DoneIs(ps, s, base, info, i);
    FrameSmall(ps, base, info, i, s.announced[i], s.frames[i]);
    PayloadIsExpected(ps, base, info, i, s.announced[i], s.frames[i]);
    PartOfDump(s.frames[i], |ps[i]|, s.out);
  }

  lemma PayloadIsExpected(ps: seq<seq<Byte>>, base: Origin, info: HeaderInfo, i: nat, bit: bool, f: Frame)
    requires AllSendable(ps) && i < |ps| && FrameIs(ps, base, info, i, bit, f)
    ensures |base.cells| == RING && |ps[i]| <= 4 * |f.payload| && Payload(f, |ps[i]|) == Expected(ps, base, i, bit)
  {
    hide HeaderWord, FrameWords, InfoAt, Unpack;
  }

  lemma PartOfDump(f: Frame, n: nat, o: OutState)
    requires o.Wf() && Dumping(f, n, o) && n <= 4 * |f.payload|
    ensures PartSent(Payload(f, n), o.dumped)
  {
    hide Agree, BytesOf, Unpack;
    var k := if |o.dumped| < 4 + n then |o.dumped| else 4 + n;
    BytesAgree(o.grabbed, o.dumped, DumpWords(f), k);
    UnpackAppend([f.header], f.payload);
    forall j | 4 <= j < k
      ensures o.dumped[j] == Payload(f, n)[j - 4]
    {
      assert o.dumped[j] == o.dumped[..k][j] == Unpack(DumpWords(f))[..k][j];
    }
  }

  /**
   * No packet is ahead of the one before it; each finished dump brings what is expected for its packet, in
   * the host's order, the latest one the part it has sent; once everything is quiet every packet has come
   * out once; and everything written to the host is, for each packet, its announcement and then its dump.
   */
  predicate Delivered(ps: seq<seq<Byte>>, base: Origin, s: Sys)
    requires AllSendable(ps)
  {
    var d := |s.rx.done|;
    && |base.cells| == RING
    && |Dumps(s)| == d <= s.sent <= s.packet <= |ps| && |s.announced| == s.sent && |s.past| <= d
    && (forall i | 0 <= i < |s.past| :: PayloadIn(s.past[i]) == Expected(ps, base, i, s.announced[i]))
    && (d > 0 && s.out.todo == 0 ==> PayloadIn(s.out.dumped) == Expected(ps, base, d - 1, s.announced[d - 1]))
    && (d > 0 ==> PartSent(Expected(ps, base, d - 1, s.announced[d - 1]), s.out.dumped))
    && (Quiet(ps, s) ==> d == |ps|)
    && LogOk(ps, s)
  }

  lemma OriginIsWhole(ps: seq<seq<Byte>>, s: Sys, base: Origin)
    requires AllSendable(ps) && TxOk(ps, s, base)
    ensures |base.cells| == RING
  {
    hide HostAt, StrayOk, Records, Slot, Cell;
    CellsAre(ps, s.packet, s.offset, s.host, base);
  }

  lemma InvDelivers(ps: seq<seq<Byte>>, s: Sys, base: Origin, info: HeaderInfo)
    requires AllSendable(ps) && Inv(ps, s, base, info)
    ensures Delivered(ps, base, s)
  {
    hide TxOk, RxOk, OutOk, LogOk, Expected, PartSent, PayloadIn, Dumps, Quiet;
    Counts(ps, s, base, info);
    OriginIsWhole(ps, s, base);
    forall i | 0 <= i < |s.past|
      ensures PayloadIn(s.past[i]) == Expected(ps, base, i, s.announced[i])
    {
      PastDelivered(ps, s, base, info, i);
    }
    if s.rx.done != [] {
      if s.out.todo == 0 {
        LatestDelivered(ps, s, base, info);
      }
      PartDelivered(ps, s, base, info);
    }
  }

  // Exactly when a payload comes out as it went in.

  /** The last bytes of `p`, which fill no word, are the first ones of `tail`. */
  predicate TailSame(p: seq<Byte>, tail: Word) {
    forall j | 0 <= j < |p| % 4 :: Octet(tail, j) == p[4 * (|p| / 4) + j]
  }

  /**
   * What the packets before left behind sets no bit that the first word of packet `i` lacks; and its last
   * bytes happen to be those of the next packet's length, if that was announced in time, or of the word
   * that the next cell of the ring held before.
   */
  predicate Undamaged(ps: seq<seq<Byte>>, base: Origin, i: nat, announced: bool)
    requires AllSendable(ps) && i < |ps| && |base.cells| == RING
  {
    && (|ps[i]| >= 4 ==> Covered(Carry(ps, i), WordsOf(0, ps[i])[0]))
    && TailSame(ps[i], TailWord(ps, base, i, announced))
  }

  /** The bytes of `p` as they come out, given what was left behind before it and the word after its whole words. */
  function Comes(p: seq<Byte>, carry: Word, tail: Word): (q: seq<Byte>)
    ensures |q| == |p|
  {
    Unpack(WordsOf(carry, p) + if |p| % 4 != 0 then [tail] else [])[..|p|]
  }

  lemma ComesParts(p: seq<Byte>, carry: Word, tail: Word)
    ensures var q, n := Comes(p, carry, tail), 4 * (|p| / 4);
      q[..n] == Unpack(WordsOf(carry, p)) && forall j | 0 <= j < |p| % 4 :: q[n + j] == Octet(tail, j)
  {
    hide WordsOf, Octet;
    var n, ws := |p| / 4, WordsOf(carry, p);
    UnpackAppend(ws, if |p| % 4 != 0 then [tail] else []);
    forall j | 0 <= j < |p| % 4
      ensures Comes(p, carry, tail)[4 * n + j] == Octet(tail, j)
    {
      assert (4 * n + j) / 4 == n && (4 * n + j) % 4 == j;
    }
  }

  lemma TailSameIff(p: seq<Byte>, q: seq<Byte>, tail: Word)
    requires |q| == |p| && forall j | 0 <= j < |p| % 4 :: q[4 * (|p| / 4) + j] == Octet(tail, j)
    ensures q[4 * (|p| / 4)..] == p[4 * (|p| / 4)..] <==> TailSame(p, tail)
  {
    hide Octet;
    var n := 4 * (|p| / 4);
    var a, b := q[n..], p[n..];
    assert |a| == |b| == |p| % 4;
    assert forall j | 0 <= j < |a| :: a[j] == Octet(tail, j) && b[j] == p[n + j];
  }

  lemma ComesWholeIff(p: seq<Byte>, carry: Word, tail: Word)
    ensures Comes(p, carry, tail) == p <==> (|p| >= 4 ==> Covered(carry, WordsOf(0, p)[0])) && TailSame(p, tail)
  {
    hide WordsOf, Covered, TailSame, Comes, Unpack, Octet;
    var q, n := Comes(p, carry, tail), 4 * (|p| / 4);
    ComesParts(p, carry, tail);
    UnpackWordsOf(p);
    WholeWordsIff(p, carry);
    TailSameIff(p, q, tail);
    SplitSame(p, q, n);
  }

  lemma SplitSame(p: seq<Byte>, q: seq<Byte>, n: nat)
    requires |p| == |q| && n <= |p|
    ensures q == p <==> q[..n] == p[..n] && q[n..] == p[n..]
  {
    assert q == q[..n] + q[n..] && p == p[..n] + p[n..];
  }

  /** Exactly when packet `i` comes out as the host sent it. */
  lemma ExpectedWholeIff(ps: seq<seq<Byte>>, base: Origin, i: nat, announced: bool)
    requires AllSendable(ps) && i < |ps| && |base.cells| == RING
    ensures Expected(ps, base, i, announced) == ps[i] <==> Undamaged(ps, base, i, announced)
  {
    hide WordsOf, Covered, TailSame, Unpack, TailWord, Carry;
    ComesWholeIff(ps[i], Carry(ps, i), TailWord(ps, base, i, announced));
  }

  /** The whole words are the host's exactly when nothing left behind shows in the first of them. */
  lemma WholeWordsIff(p: seq<Byte>, carry: Word)
    ensures Unpack(WordsOf(carry, p)) == Unpack(WordsOf(0, p)) <==> (|p| >= 4 ==> Covered(carry, WordsOf(0, p)[0]))
  {
    hide WordsOf, Octet, Covered, Unpack;
    UnpackSameIff(WordsOf(carry, p), WordsOf(0, p));
    if |p| >= 4 {
      CarryHarmlessIff(carry, p);
    } else {
      assert WordsOf(carry, p) == WordsOf(0, p) == [];
    }
  }

  lemma UnpackSameIff(v: seq<Word>, w: seq<Word>)
    ensures Unpack(v) == Unpack(w) <==> v == w
  {
    hide Pack, Unpack;
    PackUnpack(v);
    PackUnpack(w);
  }

  predicate AllWhole(ps: seq<seq<Byte>>) {
    forall i | 0 <= i < |ps| :: |ps[i]| % 4 == 0
  }

  lemma {:induction false} NoCarry(ps: seq<seq<Byte>>, k: nat)
    requires AllWhole(ps) && k <= |ps|
    ensures Carry(ps, k) == 0
  {
    hide RestOf;
    if k > 0 {
      NoCarry(ps, k - 1);
      Transfer.NothingLeft(Carry(ps, k - 1), ps[k - 1]);
    }
  }

  /** Payloads of whole words come out as they went in, finished dumps and the one under way. */
  predicate DeliveredWhole(ps: seq<seq<Byte>>, s: Sys) {
    && |s.past| <= |ps| && PayloadsIn(s.past) == ps[..|s.past|]
    && |Dumps(s)| <= |ps| && (s.out.todo == 0 ==> PayloadsIn(Dumps(s)) == ps[..|Dumps(s)|])
    && (s.rx.done != [] ==> |s.rx.done| <= |ps| && PartSent(ps[|s.rx.done| - 1], s.out.dumped))
    && (Quiet(ps, s) ==> PayloadsIn(Dumps(s)) == ps)
  }

  lemma WholeUndamaged(ps: seq<seq<Byte>>, base: Origin, i: nat, announced: bool)
    requires AllSendable(ps) && AllWhole(ps) && i < |ps| && |base.cells| == RING
    ensures Expected(ps, base, i, announced) == ps[i]
  {
    hide Expected, Covered, WordsOf, TailWord, Carry, Octet;
    NoCarry(ps, i);
    if |ps[i]| >= 4 {
      CoveredIff(0, WordsOf(0, ps[i])[0]);
      ZeroOr(WordsOf(0, ps[i])[0]);
    }
    ExpectedWholeIff(ps, base, i, announced);
  }

  lemma ZeroOr(w: Word)
    ensures w | 0 == w
  {}

  lemma PastWhole(ps: seq<seq<Byte>>, base: Origin, s: Sys)
    requires AllSendable(ps) && AllWhole(ps) && Delivered(ps, base, s)
    ensures |s.past| <= |ps| && PayloadsIn(s.past) == ps[..|s.past|]
  {
    hide Expected, PayloadIn, PartSent, Quiet;
    forall i | 0 <= i < |s.past|
      ensures PayloadIn(s.past[i]) == ps[i]
    {
      WholeUndamaged(ps, base, i, s.announced[i]);
    }
  }

  /** Payloads of whole words come out as they went in. */
  lemma WholeDelivered(ps: seq<seq<Byte>>, base: Origin, s: Sys)
    requires AllSendable(ps) && AllWhole(ps) && Delivered(ps, base, s)
    ensures DeliveredWhole(ps, s)
  {
    hide Expected, PayloadIn, PartSent, Quiet;
    PastWhole(ps, base, s);
    if s.rx.done != [] {
      var i := |s.rx.done| - 1;
      WholeUndamaged(ps, base, i, s.announced[i]);
      if s.out.todo == 0 {
        assert PayloadsIn(Dumps(s)) == PayloadsIn(s.past) + [ps[i]];
      }
    }
    QuietDrained(ps, s);
    assert ps[..|ps|] == ps;
  }

  lemma QuietDrained(ps: seq<seq<Byte>>, s: Sys)
    ensures Quiet(ps, s) ==> s.out.todo == 0
  {}

  /** Once all is quiet: the payloads that came out are the host's exactly when none of them was damaged in the ring. */
  lemma AllOutIff(ps: seq<seq<Byte>>, base: Origin, s: Sys)
    requires AllSendable(ps) && Delivered(ps, base, s) && Quiet(ps, s)
    ensures |s.announced| == |ps|
    ensures PayloadsIn(Dumps(s)) == ps <==> forall i | 0 <= i < |ps| :: Undamaged(ps, base, i, s.announced[i])
  {
    hide Expected, PayloadIn, PartSent, Undamaged;
    forall i | 0 <= i < |ps|
      ensures PayloadsIn(Dumps(s))[i] == ps[i] <==> Undamaged(ps, base, i, s.announced[i])
    {
      ExpectedWholeIff(ps, base, i, s.announced[i]);
    }
  }

  /**
   * End to end: in every state of every run, what has come out is what is expected for each packet, and
   * for payloads of whole words it is what went in.
   */
  lemma LoopbackDelivers(ps: seq<seq<Byte>>, states: seq<Sys>, steps: seq<Step>, info: HeaderInfo, n: nat)
    requires AllSendable(ps) && info.InRange() && IsRun(ps, states, steps) && Initial(states[0], info) && n < |states|
    ensures Delivered(ps, Start(states[0]), states[n])
    ensures AllWhole(ps) ==> DeliveredWhole(ps, states[n])
  {
    hide *;
    RunInv(ps, states, steps, info, n);
    InvDelivers(ps, states[n], Start(states[0]), info);
    if AllWhole(ps) {
      WholeDelivered(ps, Start(states[0]), states[n]);
    }
  }

  /** For acknowledgements of four bytes: header, command, the packet's length, and the CRC of these three. */
  lemma AnnouncementIs(p: seq<Byte>)
    requires Sendable(p) && P.replySize == 4
    ensures Announcement(p) == [P.packetHeader, P.rxPacket, ByteOf(|p|), Crc(CRC8_INIT, [P.packetHeader, P.rxPacket, ByteOf(|p|)])]
  {
    hide Octet, Update, ReplyPacket, ByteOf;
    ReplyBytes(P.rxPacket, ByteOf(|p|));
    TailOfFour(ReplyPacket(P.rxPacket, ByteOf(|p|)));
  }

  /** Once all is quiet, the whole output is one announcement and one dump for each packet, in order. */
  lemma AllWritten(ps: seq<seq<Byte>>, base: Origin, s: Sys)
    requires AllSendable(ps) && Delivered(ps, base, s) && Quiet(ps, s)
    ensures |Dumps(s)| == |ps| && s.log == History(ps, Dumps(s), |ps|)
  {
    hide Expected, PayloadIn, PartSent, LogOk;
    AckSent(ps, s);
    LatestLogged(ps, s);
  }

  lemma AckSent(ps: seq<seq<Byte>>, s: Sys)
    requires AllSendable(ps) && LogOk(ps, s) && Quiet(ps, s)
    ensures s.out.ack == []
  {
    hide History, Tagged, Announcement;
  }

  // The seed of section 10.7.1 of IEEE 802.15.6.

  /** The seed of frame `i`: toggled with each frame, from the initial one. */
  function SeedOf(first: Word, i: nat): Word {
    if i % 2 == 0 then first else if first == 0 then 1 else 0
  }

  lemma {:induction false} InfoSeed(info: HeaderInfo, ps: seq<seq<Byte>>, i: nat)
    requires AllSendable(ps) && i <= |ps| && info.InRange()
    ensures InfoAt(info, ps, i).scramblerSeed == SeedOf(info.scramblerSeed, i)
  {
    hide ByteOf;
    if i > 0 {
      InfoSeed(info, ps, i - 1);
      TwoSeeds(info.scramblerSeed, i - 1);
    }
  }

  lemma TwoSeeds(first: Word, i: nat)
    requires first < 2
    ensures SeedOf(first, i + 1) == if SeedOf(first, i) == 0 then 1 else 0
  {}

  /** In every state of every run the headers carry the initial seed and its opposite in turn. */
  lemma SeedsAlternate(ps: seq<seq<Byte>>, states: seq<Sys>, steps: seq<Step>, info: HeaderInfo, n: nat, i: nat)
    requires AllSendable(ps) && info.InRange() && IsRun(ps, states, steps) && Initial(states[0], info) && n < |states|
    requires i < |states[n].frames|
    ensures SeedField(states[n].frames[i].header) == SeedOf(info.scramblerSeed, i)
    ensures i + 1 < |states[n].frames| ==> SeedField(states[n].frames[i + 1].header) != SeedField(states[n].frames[i].header)
  {
    hide *;
    RunInv(ps, states, steps, info, n);
    FrameSeed(ps, states[n], Start(states[0]), info, i);
    if i + 1 < |states[n].frames| {
      FrameSeed(ps, states[n], Start(states[0]), info, i + 1);
      SeedsDiffer(info, i);
    }
  }

  lemma SeedsDiffer(info: HeaderInfo, i: nat)
    requires info.InRange()
    ensures SeedOf(info.scramblerSeed, i + 1) != SeedOf(info.scramblerSeed, i)
  {}

  lemma FrameSeed(ps: seq<seq<Byte>>, s: Sys, base: Origin, info: HeaderInfo, i: nat)
    requires AllSendable(ps) && Inv(ps, s, base, info) && info.InRange() && i < |s.frames|
    ensures SeedField(s.frames[i].header) == SeedOf(info.scramblerSeed, i)
  {
    hide TxOk, OutOk, LogOk, SeedOf, HeaderWord, SeedField, HeaderInfo.InRange, FrameWords, Absorb, ByteOf, RxView.Wf;
    InfoSeed(info, ps, i);
    InfoInRange(info, ps, i);
    LengthInRange(InfoAt(info, ps, i), ByteOf(|ps[i]|));
    HeaderRecovered(InfoAt(info, ps, i).(pdsuLength := ByteOf(|ps[i]|)));
  }
}
