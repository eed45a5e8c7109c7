/** Which received frames are not forwarded: the test of the header in `hbc_to_spi` (src/main.c), on bits. */
module Rejection {
  import opened Words
  import opened Crc8
  import opened Plcp
  import opened HostProtocol
  import opened Scrambling
  import opened SpiData
  import opened ExtractRx
  import opened DataPort
  import opened MainLoop

  /** The four bytes of a header, in the order in which they leave. */
  function Octets(header: Word): (bytes: seq<Byte>)
    ensures |bytes| == 4
  {
    [Octet(header, 0), Octet(header, 1), Octet(header, 2), Octet(header, 3)]
  }

  /** Whenever the frame is the oldest one, the host hears nothing of it, and the reader moves on behind it. */
  ghost predicate NeverForwarded(f: Frame) {
    forall v: RxView, o: OutState | v.Wf() && v.ready != [] && v.ready[0] == f ::
      ForwardOut(v, o) == o && ForwardRx(v) == Release(AtOldest(v))
  }

  /** The host is told of the frame with its length, and the dump of header, payload and padding starts. */
  predicate Announces(f: Frame, o: OutState, t: OutState) {
    var n := Octet(f.header, 2);
    && t.ack == Tail(ReplyPacket(P.rxPacket, n), P.replySize, P.replySize)
    && t.todo == ByteValue(n) + P.hbcHeaderSize + RX_PAD && t.fromRx && t.dumped == [] && t.reply == o.reply
  }

  lemma Announced(v: RxView, o: OutState)
    requires v.Wf() && v.ready != []
    requires var f := v.ready[0];
      Octet(f.header, 3) == HeaderCrc(f.header) && ByteValue(Octet(f.header, 2)) <= 4 * |f.payload|
    ensures Announces(v.ready[0], o, ForwardOut(v, o)) && ForwardRx(v).done == v.done + [v.ready[0]]
  {
    hide Octet, HeaderCrc, ByteValue, LengthField, Accepted, Tail, ReplyPacket, Flat;
    AcceptedIff(v.ready[0]);
    LengthIsOctet(v.ready[0].header);
  }

  lemma NotAnnounced(f: Frame)
    requires Octet(f.header, 3) != HeaderCrc(f.header) || ByteValue(Octet(f.header, 2)) > 4 * |f.payload|
    ensures NeverForwarded(f)
  {
    hide Octet, HeaderCrc, ByteValue, Accepted, Flat;
    AcceptedIff(f);
  }

  lemma SomeView(f: Frame) returns (v: RxView)
    requires FrameBytes(f) < TWO32
    ensures v.Wf() && v.ready == [f]
  {
    v := RxView([], [f], [], 0, false);
  }

  /** Exactly the frames whose CRC is wrong or that hold fewer bytes than their header says are never forwarded. */
  lemma NeverForwardedIff(f: Frame)
    requires FrameBytes(f) < TWO32
    ensures NeverForwarded(f)
      <==> Octet(f.header, 3) != HeaderCrc(f.header) || ByteValue(Octet(f.header, 2)) > 4 * |f.payload|
  {
    hide Octet, HeaderCrc, ByteValue, Announces, Flat;
    if Octet(f.header, 3) != HeaderCrc(f.header) || ByteValue(Octet(f.header, 2)) > 4 * |f.payload| {
      NotAnnounced(f);
    } else {
      var v := SomeView(f);
      var o := OutState([], [], 0, 0, 0, false, 0, [], []);
      Announced(v, o);
      NothingAnnounced(f, o);
      assert ForwardOut(v, o) != o;
    }
  }

  lemma NothingAnnounced(f: Frame, o: OutState)
    requires o.todo == 0
    ensures !Announces(f, o, o)
  {}

  // Damage on the air.

  /** The frame that arrives as `header` and `rest`, behind those that are still unread. */
  lemma Arrived(v: RxView, header: Word, rest: seq<Word>)
    requires v.open == []
    ensures var w := Close(Absorb(v, [header] + rest));
      && |w.ready| == |v.ready| + 1 && w.done == v.done && w.open == []
      && w.ready[|v.ready|].header == header && |w.ready[|v.ready|].payload| == |rest|
  {
    hide SeedBit, Scramble;
    assert ([header] + rest)[1..] == rest;
  }

  lemma DamagedHeader(sent: HeaderInfo, header: Word)
    requires sent.InRange() && Crc(CRC8_INIT, Octets(header)) != Crc(CRC8_INIT, Octets(HeaderWord(sent)))
    ensures Octet(header, 3) != HeaderCrc(header)
  {
    hide HeaderWord, HeaderInfo.InRange, Octet, HeaderCrc, Crc;
    HeaderRecovered(sent);
    CrcOkIff(header);
    assert CrcOk(HeaderWord(sent));
  }

  /**
   * End to end: a header that left with fields in range and arrives with any nonzero error within eight
   * consecutive bits makes a frame that is never forwarded.
   */
  lemma BurstRejected(v: RxView, sent: HeaderInfo, p: nat, pattern: Byte, header: Word, rest: seq<Word>)
    requires sent.InRange() && v.open == [] && pattern != 0 && Fits(4, p, pattern)
    requires Octets(header) == Burst(Octets(HeaderWord(sent)), p, pattern)
    ensures var w := Close(Absorb(v, [header] + rest));
      |w.ready| == |v.ready| + 1 && w.done == v.done && NeverForwarded(w.ready[|v.ready|])
  {
    hide HeaderWord, HeaderInfo.InRange, Octets, Burst, Crc, HeaderCrc, NeverForwarded, Absorb, Close, Octet;
    BurstDetected(Octets(HeaderWord(sent)), p, pattern);
    DamagedHeader(sent, header);
    Arrived(v, header, rest);
    NotAnnounced(Close(Absorb(v, [header] + rest)).ready[|v.ready|]);
  }

  /** The same for any two flipped bits. */
  lemma TwoFlipsRejected(v: RxView, sent: HeaderInfo, p: nat, q: nat, header: Word, rest: seq<Word>)
    requires sent.InRange() && v.open == [] && p < q < 32
    requires Octets(header) == Flip(Flip(Octets(HeaderWord(sent)), p), q)
    ensures var w := Close(Absorb(v, [header] + rest));
      |w.ready| == |v.ready| + 1 && w.done == v.done && NeverForwarded(w.ready[|v.ready|])
  {
    hide HeaderWord, HeaderInfo.InRange, Octets, Flip, Crc, HeaderCrc, NeverForwarded, Absorb, Close, Octet;
    TwoFlipsUndetectedIff(Octets(HeaderWord(sent)), p, q);
    DamagedHeader(sent, header);
    Arrived(v, header, rest);
    NotAnnounced(Close(Absorb(v, [header] + rest)).ready[|v.ready|]);
  }

  /** A frame that is cut short, below the length in its header, is never forwarded. */
  lemma ShortRejected(v: RxView, sent: HeaderInfo, rest: seq<Word>)
    requires sent.InRange() && v.open == [] && 4 * |rest| < ByteValue(sent.pdsuLength)
    ensures var w := Close(Absorb(v, [HeaderWord(sent)] + rest));
      |w.ready| == |v.ready| + 1 && w.done == v.done && NeverForwarded(w.ready[|v.ready|])
  {
    hide HeaderWord, HeaderInfo.InRange, Crc, HeaderCrc, NeverForwarded, Absorb, Close, Octet, ByteValue, LengthField;
    HeaderRecovered(sent);
    LengthIsOctet(HeaderWord(sent));
    Arrived(v, HeaderWord(sent), rest);
    NotAnnounced(Close(Absorb(v, [HeaderWord(sent)] + rest)).ready[|v.ready|]);
  }
}
