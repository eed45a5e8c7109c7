/** The two branches of the main loop of src/main.c that move packets. */
module MainLoop {
  import opened Words
  import opened Crc8
  import opened Plcp
  import opened Ring
  import opened Scrambling
  import opened HostProtocol
  import opened HostPort
  import opened SpiData
  import opened DataPort
  import opened ExtractRx
  import opened Fifo
  import opened BuildTx

  // Sending.

  /** The length that the transmitter takes from the ring: the low byte of the stored word. */
  function PacketLength(s: HostState): Byte
    requires s.Wf()
  {
    Octet(s.cells[Slot(s.pktAddr)], 0)
  }

  /** The frame that is built from the packet at `pktAddr`: the header and the words read from the ring. */
  function SentFrame(s: HostState, info: HeaderInfo): Frame
    requires s.Wf()
  {
    var length := PacketLength(s);
    Frame(HeaderWord(info.(pdsuLength := length)),
          CellsFrom(s.cells, Slot(s.pktAddr) + 1, AirWords(ByteValue(length))))
  }

  /** The words that go on the air for a frame. */
  function OnAir(f: Frame, seed: bool): seq<Word> {
    [f.header] + Scramble(seed, 0, f.payload)
  }

  function AirFrame(s: HostState, info: HeaderInfo): seq<Word>
    requires s.Wf()
  {
    OnAir(SentFrame(s, info), info.scramblerSeed != 0)
  }

  /** The consumer's step to the next packet. */
  function AfterFrame(s: HostState): (r: HostState)
    requires s.Wf()
    ensures r.Wf()
  {
    s.(pktAddr := U32(s.pktAddr + 4 * (ByteValue(PacketLength(s)) / 4) + 4) % MEM_RX_BUF)
  }

  /** The seed is toggled each frame (section 10.7.1 of IEEE 802.15.6). */
  function AfterSend(info: HeaderInfo, length: Byte): HeaderInfo {
    info.(pdsuLength := length, scramblerSeed := if info.scramblerSeed == 0 then 1 else 0)
  }

  class Sender {
    const port: Port
    const fifo: TxFifo
    const scrambler: Scrambler
    var info: HeaderInfo

    constructor (port: Port, fifo: TxFifo, scrambler: Scrambler)
      ensures this.port == port && this.fifo == fifo && this.scrambler == scrambler
      ensures info == HeaderInfo(0, 6, 0, 0, 0)
    {
      this.port, this.fifo, this.scrambler := port, fifo, scrambler;
      info := HeaderInfo(0, 6, 0, 0, 0);
    }

    /** Puts the packet at the packet pointer on the air; the result is its number of whole words. */
    method BuildFrame(chips: seq<Word>) returns (words: nat)
      requires port.bank.Valid()
      modifies this`info, port.bank`rd, fifo, scrambler
      ensures port.bank.Valid()
      ensures var length := Octet(port.bank.cells[Slot(port.pktAddr)], 0);
        && info == old(info).(pdsuLength := length) && words == ByteValue(length) / 4
        && fifo.Framed(chips, [HeaderWord(info)] + Scramble(info.scramblerSeed != 0, 0,
             CellsFrom(port.bank.cells, Slot(port.pktAddr) + 1, AirWords(ByteValue(length)))))
    {
      hide Octet, ByteValue, HeaderWord, Scramble, CellsFrom, Slot, Cell, AirWords, WordsIn, Pulses, Orderly;
      port.bank.SetRd(port.pktAddr);
      var word := port.bank.Read();
      info := info.(pdsuLength := Octet(word, 0));
      BuildTxPlcpHeader(fifo, info, chips);
      words := BuildTxPayload(fifo, info, port.bank, scrambler);
      CellsFromCell(port.bank.cells, Slot(port.pktAddr) + 1, AirWords(ByteValue(info.pdsuLength)));
    }

    /** The part that runs with interrupts disabled, and the masking after it. */
    method Transmit(chips: seq<Word>)
      requires port.Valid()
      modifies this`info, port`pktAddr, port.bank`rd, fifo, scrambler
      ensures port.Valid() && port.State() == AfterFrame(old(port.State()))
      ensures fifo.Framed(chips, old(AirFrame(port.State(), info)))
      ensures info == old(AfterSend(info, PacketLength(port.State())))
      ensures info.scramblerSeed == (if old(info).scramblerSeed == 0 then 1 else 0) && port.pktAddr < MEM_RX_BUF
    {
      hide Octet, ByteValue, HeaderWord, Scramble, CellsFrom, Slot, U32, AirWords, TxFifo.Framed;
      var words := BuildFrame(chips);
      port.pktAddr := U32(port.pktAddr + 4 * words + 4);
      port.pktAddr := port.pktAddr % MEM_RX_BUF;
      info := info.(scramblerSeed := if info.scramblerSeed == 0 then 1 else 0);
    }

    /** `tx_pending--`, as one atomic step. */
    method CountDown()
      requires port.Valid()
      modifies port`txPending
      ensures port.Valid() && port.State() == old(port.State()).(pending := old(port.State().pending) - 1)
    {
      port.txPending := port.txPending - 1;
    }
  }

  lemma CellsFromCell(cells: seq<Word>, at: nat, n: nat)
    requires |cells| == RING
    ensures CellsFrom(cells, Cell(at), n) == CellsFrom(cells, at, n)
  {
    var a, b := CellsFrom(cells, Cell(at), n), CellsFrom(cells, at, n);
    forall i | 0 <= i < n
      ensures a[i] == b[i]
    {
      CellAdd(at, i);
    }
  }

  // Forwarding.

  lemma TailOfFour(w: Word)
    ensures Tail(w, 4, 4) == [Octet(w, 0), Octet(w, 1), Octet(w, 2), Octet(w, 3)]
  {
    hide Octet;
  }

  /** The acknowledgement packet of `reply_pkt`. */
  function ReplyPacket(cmd: Byte, arg: Byte): Word {
    WithCrc(Join(P.packetHeader, cmd, arg, 0), HeaderCrc(Join(P.packetHeader, cmd, arg, 0)))
  }

  lemma JoinedCrc(a: Byte, b: Byte, c: Byte, crc: Byte)
    ensures WithCrc(Join(a, b, c, 0), crc) == Join(a, b, c, crc)
  {}

  /** Its four bytes, as they are sent, and that the host's residue over them is zero. */
  lemma ReplyBytes(cmd: Byte, arg: Byte)
    ensures var w := ReplyPacket(cmd, arg);
      && Octet(w, 0) == P.packetHeader && Octet(w, 1) == cmd && Octet(w, 2) == arg
      && Octet(w, 3) == Crc(CRC8_INIT, [P.packetHeader, cmd, arg])
      && Crc(CRC8_INIT, [P.packetHeader, cmd, arg, Octet(w, 3)]) == 0
  {
    hide Octet, Join, Update, WithCrc;
    var low := Join(P.packetHeader, cmd, arg, 0);
    OctetsOfJoin(P.packetHeader, cmd, arg, 0);
    var crc := HeaderCrc(low);
    JoinedCrc(P.packetHeader, cmd, arg, crc);
    OctetsOfJoin(P.packetHeader, cmd, arg, crc);
    ResidueIff(CRC8_INIT, [P.packetHeader, cmd, arg], crc);
    assert [P.packetHeader, cmd, arg] + [crc] == [P.packetHeader, cmd, arg, crc];
  }

  const RX_PAD: nat := 4

  /** The receiver forwards a frame whose header checks and that holds as many bytes as its header says. */
  predicate Accepted(f: Frame) {
    CrcOk(f.header) && ByteValue(LengthField(f.header)) <= 4 * |f.payload|
  }

  /**
   * On bits: a frame is forwarded exactly when the top byte of its header is the CRC of the three others, and
   * the byte below it counts no more payload bytes than were stored.
   */
  lemma AcceptedIff(f: Frame)
    ensures Accepted(f)
      <==> Octet(f.header, 3) == HeaderCrc(f.header) && ByteValue(Octet(f.header, 2)) <= 4 * |f.payload|
  {
    hide CrcOk, LengthField, HeaderCrc, Octet, ByteValue;
    CrcOkIff(f.header);
    LengthIsOctet(f.header);
  }

  lemma LengthInRange(info: HeaderInfo, length: Byte)
    requires info.InRange()
    ensures info.(pdsuLength := length).InRange()
  {}

  /** A frame on the air is absorbed as its header and its payload. */
  lemma OnAirAbsorbed(v: RxView, f: Frame, info: HeaderInfo)
    requires v.open == [] && info.InRange() && f.header == HeaderWord(info)
    ensures Absorb(v, OnAir(f, info.scramblerSeed != 0)).open == [f.header] + f.payload
  {
    hide HeaderWord, HeaderInfo.InRange, SeedField, Scramble;
    HeaderRecovered(info);
    SeedBitIs(f.header);
    ScrambleTwice(info.scramblerSeed != 0, 0, f.payload);
    assert OnAir(f, info.scramblerSeed != 0)[1..] == Scramble(info.scramblerSeed != 0, 0, f.payload);
  }

  /**
   * Whatever the packet's length, the frame that is sent is accepted, its header gives the length back,
   * and its payload is the words read from memory, descrambled: the length rounded up to whole words.
   */
  lemma FrameRecovered(s: HostState, info: HeaderInfo, v: RxView)
    requires s.Wf() && info.InRange() && v.open == []
    ensures var n, f := ByteValue(PacketLength(s)), SentFrame(s, info);
      && Close(Absorb(v, AirFrame(s, info))) == v.(ready := v.ready + [f])
      && Accepted(f) && LengthField(f.header) == PacketLength(s) && SeedField(f.header) == info.scramblerSeed
      && f.payload == CellsFrom(s.cells, Slot(s.pktAddr) + 1, AirWords(n)) && n <= 4 * |f.payload| < n + 4
  {
    hide HeaderInfo.InRange, HeaderWord, SeedField, Scramble, CellsFrom, Slot, Octet, ByteValue, CrcOk, LengthField, Absorb, Close;
    var i := info.(pdsuLength := PacketLength(s));
    LengthInRange(info, PacketLength(s));
    HeaderRecovered(i);
    SeedBitIs(HeaderWord(i));
    FrameDelivered(v, HeaderWord(i), CellsFrom(s.cells, Slot(s.pktAddr) + 1, AirWords(ByteValue(PacketLength(s)))));
  }

  /** The reader at the oldest unread frame. */
  function AtOldest(v: RxView): RxView
    requires v.Wf()
  {
    v.(cursor := |Flat(v.done)|, cached := v.ready != [])
  }

  function ForwardRx(v: RxView): RxView
    requires v.Wf()
  {
    if v.ready == [] then AtOldest(v)
    else
      var skip := if Accepted(v.ready[0]) then 1 else 0;
      Release(AtOldest(v).(cursor := |Flat(v.done)| + skip))
  }

  function ForwardOut(v: RxView, o: OutState): OutState
    requires v.Wf()
  {
    if v.ready == [] || !Accepted(v.ready[0]) then o
    else
      var length := LengthField(v.ready[0].header);
      var t := o.(ack := Tail(ReplyPacket(P.rxPacket, length), P.replySize, P.replySize));
      StartDump(t, ByteValue(length) + P.hbcHeaderSize + RX_PAD, true)
  }

  class Forwarder {
    const rx: RxPath
    const out: DataOut

    constructor (rx: RxPath, out: DataOut)
      requires out.rx == rx
      ensures this.rx == rx && this.out == out
    {
      this.rx, this.out := rx, out;
    }

    method ReplyPkt(cmd: Byte, arg: Byte)
      requires out.Valid()
      modifies out`ackData, out`ackBytes
      ensures out.Valid()
      ensures out.State() == old(out.State()).(ack := Tail(ReplyPacket(cmd, arg), P.replySize, P.replySize))
      ensures P.replySize == 4 ==>
        out.State().ack == [P.packetHeader, cmd, arg, Crc(CRC8_INIT, [P.packetHeader, cmd, arg])]
    {
      hide Tail, Octet, Join, Update;
      ReplyBytes(cmd, arg);
      TailOfFour(ReplyPacket(cmd, arg));
      var data := Join(P.packetHeader, cmd, arg, 0);
      var crc := Crc8Header(data);
      out.HbcSpiAck(WithCrc(data, crc));
    }

    /** One frame from the ring to the host, up to the first byte, which the data trigger then sends. */
    method HbcToSpi() returns (forwarded: bool)
      requires out.rx == rx && rx.Valid() && out.Valid()
      requires rx.view.ready != [] || rx.view.open != [] ==> rx.view.Intact(|Flat(rx.view.done)|)
      modifies out, rx`rdPacketMarker, rx`rdPacketHeader, rx`rdBufAddr, rx`view, rx`rdPacketAddr, rx`packetReady, rx.bank`rd
      ensures rx.Valid() && out.Valid()
      ensures forwarded == (old(rx.view.ready) != [] && Accepted(old(rx.view.ready)[0]))
      ensures forwarded ==
        (&& old(rx.view.ready) != []
         && Octet(old(rx.view.ready)[0].header, 3) == HeaderCrc(old(rx.view.ready)[0].header)
         && ByteValue(Octet(old(rx.view.ready)[0].header, 2)) <= 4 * |old(rx.view.ready)[0].payload|)
      ensures !forwarded ==> out.State() == old(out.State())
      ensures out.written == old(out.written)
      ensures rx.view == ForwardRx(old(rx.view)) && out.State() == ForwardOut(old(rx.view), old(out.State()))
    {
      hide RxPath.Valid, DataOut.Valid, RxView.Wf, Flat, Tail, CrcOk, LengthField, ByteValue, DataOut.State, RxView.Intact, ReplyPacket,
        Octet, HeaderCrc;
      if rx.view.ready != [] {
        AcceptedIff(rx.view.ready[0]);
      }
      forwarded := false;
      var ready := rx.RxPacketReady();
      if ready == 0 {
        return;
      }
      var ok := rx.RxCheckCrcOk();
      if ok {
        var bytes := rx.RxPacketLength();
        var have := rx.RxBytesRead();
        if ByteValue(bytes) <= have {
          forwarded := true;
          ReplyPkt(P.rxPacket, bytes);
          var marker := rx.RxRead();
          out.HbcSpiDumpBytes(ByteValue(bytes) + P.hbcHeaderSize + RX_PAD, true);
        }
      }
      rx.RxPacketNext();
    }
  }
}
