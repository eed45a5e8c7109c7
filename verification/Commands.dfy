/**
 * What the host's commands do, from the bytes of their encoding: loading and sending from a new address, loading
 * and dumping, memory test and flash, and what comes back for each.
 */
module Commands {
  import opened Words
  import opened Crc8
  import opened Plcp
  import opened Ring
  import opened Scrambling
  import opened FlashDevice
  import opened FlashDriver
  import opened FlashTheory
  import opened BuildTx
  import opened HostProtocol
  import opened HostPort
  import opened SpiData
  import opened DataPort
  import opened MainLoop
  import opened TxRing
  import opened Transfer
  import opened Control
  import opened Interleave

  /** The command with argument `arg`, without a payload. */
  function Plain(cmd: Byte, arg: Word): Item {
    Command(cmd, arg, [])
  }

  /** The command to load `p`. */
  function LoadCommand(p: seq<Byte>): Item
    requires |p| < TWO32
  {
    Command(P.memLoad, WordOf(|p|), p)
  }

  lemma PlainWf(cmd: Byte, arg: Word)
    requires !IsLoad(cmd)
    ensures Plain(cmd, arg).Wf()
  {}

  lemma LoadWf(p: seq<Byte>)
    requires |p| < TWO32
    ensures LoadCommand(p).Wf()
  {
    hide Value, WordOf;
    ValueOfWord(|p|);
  }

  lemma FeedPlain(s: HostState, cmd: Byte, arg: Word)
    requires s.Wf() && s.Idle() && !IsLoad(cmd)
    ensures Feed(s, Encode(Plain(cmd, arg))) == Dispatch(s, cmd, arg)
  {
    hide Dispatch, Feed, Encode;
    PlainWf(cmd, arg);
    FeedItem(s, Plain(cmd, arg));
  }

  lemma FeedTwo(s: HostState, a: Item, rest: seq<Item>)
    requires s.Wf() && s.Idle() && a.Wf()
    ensures Feed(s, Encode(a)).Idle() && Feed(s, EncodeAll([a] + rest)) == Feed(Feed(s, Encode(a)), EncodeAll(rest))
  {
    hide Feed, Encode, Item.Wf, Meaning, HostState.Wf, HostState.Idle;
    FeedItem(s, a);
    assert ([a] + rest)[1..] == rest;
    FeedAppend(s, Encode(a), EncodeAll(rest));
  }

  lemma FeedOne(s: HostState, a: Item)
    requires s.Wf()
    ensures Feed(s, EncodeAll([a])) == Feed(s, Encode(a))
  {
    hide Feed, Encode, HostState.Wf;
    assert [a][1..] == [] && EncodeAll([a][1..]) == [];
    assert Encode(a) + [] == Encode(a);
  }

  // Addresses.

  /** The command to set the memory write address moves the loader, and only the loader. */
  lemma WriteAddressFed(s: HostState, a: Word)
    requires s.Wf() && s.Idle()
    ensures Feed(s, Encode(Plain(P.memWrAddr, a)))
      == s.(loadAddr := Value(a), commands := s.commands + [(P.memWrAddr, a)])
  {
    hide Value, Feed, Encode;
    FeedPlain(s, P.memWrAddr, a);
  }

  /** The command to set the transmit address moves loader and transmitter. */
  lemma TxAddressFed(s: HostState, a: Word)
    requires s.Wf() && s.Idle()
    ensures Feed(s, Encode(Plain(P.txAddr, a)))
      == s.(loadAddr := Value(a), pktAddr := Value(a), commands := s.commands + [(P.txAddr, a)])
  {
    hide Value, Feed, Encode;
    FeedPlain(s, P.txAddr, a);
  }

  // Packets.

  function Packets(ps: seq<seq<Byte>>): (items: seq<Item>)
    requires AllSendable(ps)
    ensures |items| == |ps|
  {
    seq(|ps|, i requires 0 <= i < |ps| => TxCommand(ps[i]))
  }

  /** The bytes of a packet's encoding from byte `off` on. */
  function BytesFrom(p: seq<Byte>, off: nat): seq<Byte>
    requires |p| < TWO32 && off <= 1 + P.packetSize + |p|
  {
    seq(1 + P.packetSize + |p| - off, i requires 0 <= i < 1 + P.packetSize + |p| - off => PacketByte(p, off + i))
  }

  lemma {:induction false} RestFed(ps: seq<seq<Byte>>, k: nat, off: nat, s: HostState, base: Origin)
    requires AllSendable(ps) && k < |ps| && HostAt(ps, k, off, s, base) && (off == 0 ==> s.got == None) && s.Wf()
    requires off < 1 + P.packetSize + |ps[k]|
    ensures var t := Feed(s, BytesFrom(ps[k], off));
      && HostAt(ps, k + 1, 0, t, base) && t.got == None && t.pktAddr == s.pktAddr
      && t.pending == s.pending + if off <= P.packetSize then 1 else 0
    decreases 1 + P.packetSize + |ps[k]| - off
  {
    hide HostAt, CtrlByte, PacketByte, HostState.Wf;
    var bytes, b := BytesFrom(ps[k], off), PacketByte(ps[k], off);
    assert bytes[0] == b && bytes[1..] == BytesFrom(ps[k], off + 1);
    ByteArrives(ps, k, off, s, base);
    var t := CtrlByte(s, b);
    assert Feed(s, bytes) == Feed(t, bytes[1..]);
    if off + 1 < 1 + P.packetSize + |ps[k]| {
      RestFed(ps, k, off + 1, t, base);
    } else {
      assert bytes[1..] == [];
      assert Feed(t, []) == t;
    }
  }

  /** Packets fed one after the other lie in the ring one after the other. */
  lemma {:induction false} PacketsFed(ps: seq<seq<Byte>>, k: nat, s: HostState, base: Origin)
    requires AllSendable(ps) && k <= |ps| && HostAt(ps, k, 0, s, base) && s.got == None && s.Wf()
    ensures var t := Feed(s, EncodeAll(Packets(ps)[k..]));
      && t.Wf() && HostAt(ps, |ps|, 0, t, base) && t.got == None && t.pktAddr == s.pktAddr && t.pending == s.pending + (|ps| - k)
    decreases |ps| - k
  {
    hide HostAt, HostState.Wf, Feed, PacketByte, Encode;
    if k == |ps| {
      FeedNothing(s);
      assert Packets(ps)[k..] == [];
    } else {
      var rest := Packets(ps)[k..];
      assert rest[0] == TxCommand(ps[k]) && rest[1..] == Packets(ps)[k + 1..];
      PacketBytes(ps[k]);
      RestFed(ps, k, 0, s, base);
      assert BytesFrom(ps[k], 0) == Encode(rest[0]);
      FeedAppend(s, Encode(rest[0]), EncodeAll(rest[1..]));
      PacketsFed(ps, k + 1, Feed(s, Encode(rest[0])), base);
    }
  }

  lemma StartsAt(ps: seq<seq<Byte>>, s: HostState)
    requires AllSendable(ps) && s.Wf() && s.Idle() && s.part == 0
    ensures HostAt(ps, 0, 0, s, Origin(Slot(s.loadAddr), s.cells))
  {
    hide Slot, Cell;
    CellOfSlot(s.loadAddr);
    assert Stored(ps, 0, 0) == [];
    assert WriteAll(s.cells, Slot(s.loadAddr), []) == s.cells;
  }

  /**
   * After the command to set the transmit address, in any state between loads, the packets that follow lie at the
   * new address, and the next frame sent is that of the first of them: the transmit ring starts anew there.
   */
  lemma SendsFromNewAddress(s: HostState, a: Word, ps: seq<seq<Byte>>, info: HeaderInfo)
    requires s.Wf() && s.Idle() && s.part == 0 && AllSendable(ps) && ps != [] && |Records(ps, |ps|)| <= RING
    ensures var t := Feed(s, EncodeAll([Plain(P.txAddr, a)] + Packets(ps)));
      var base := Origin(Slot(Value(a)), s.cells);
      && t.Wf() && HostAt(ps, |ps|, 0, t, base) && Slot(t.pktAddr) == Slot(Value(a)) && t.pending == s.pending + |ps|
      && SentFrame(t, info) == FrameOf(ps, base, 0, |ps| > 1, info)
  {
    hide HostAt, HostState.Wf, HostState.Idle, Feed, Encode, Value, Slot, Cell, Records, SentFrame, FrameOf, Packets, Item.Wf;
    PlainWf(P.txAddr, a);
    var u := Feed(s, Encode(Plain(P.txAddr, a)));
    FeedTwo(s, Plain(P.txAddr, a), Packets(ps));
    TxAddressFed(s, a);
    MovedWf(s, u);
    StartsAt(ps, u);
    PacketsFed(ps, 0, u, Origin(Slot(Value(a)), s.cells));
    assert Packets(ps)[0..] == Packets(ps);
    FirstSent(ps, Feed(u, EncodeAll(Packets(ps))), Origin(Slot(Value(a)), s.cells), info);
  }

  lemma MovedWf(s: HostState, u: HostState)
    requires s.Wf() && s.Idle() && u == s.(loadAddr := u.loadAddr, pktAddr := u.pktAddr, commands := u.commands)
    requires u.loadAddr < TWO32 && u.pktAddr < TWO32
    ensures u.Wf() && u.Idle() && u.got == None
  {}

  lemma FirstSent(ps: seq<seq<Byte>>, t: HostState, base: Origin, info: HeaderInfo)
    requires AllSendable(ps) && ps != [] && HostAt(ps, |ps|, 0, t, base) && t.Wf()
    requires Slot(t.pktAddr) == base.at && base.at < RING && |Records(ps, |ps|)| <= RING
    ensures |base.cells| == RING && SentFrame(t, info) == FrameOf(ps, base, 0, |ps| > 1, info)
  {
    hide HostAt, HostState.Wf, Slot, SentFrame, FrameOf;
    NoRecords(ps);
    CellOf(base.at);
    SendsPacket(ps, |ps|, 0, t, base, 0, info);
  }

  lemma NoRecords(ps: seq<seq<Byte>>)
    requires AllSendable(ps)
    ensures Records(ps, 0) == [] && Stored(ps, |ps|, 0) == Records(ps, |ps|)
  {
    hide Record, Carry;
  }

  /** One packet, whatever the loader had left over: its header, and its whole words on top of that. */
  lemma SendsOneFromNewAddress(s: HostState, a: Word, p: seq<Byte>, info: HeaderInfo)
    requires s.Wf() && s.Idle() && |p| < 256
    ensures var f := SentFrame(Feed(s, EncodeAll([Plain(P.txAddr, a), TxCommand(p)])), info);
      && f.header == HeaderWord(info.(pdsuLength := ByteOf(|p|)))
      && |f.payload| == AirWords(|p|) && f.payload[..|p| / 4] == WordsOf(s.part, p)
  {
    hide HostState.Wf, HostState.Idle, Feed, Encode, Value, Slot, Cell, Item.Wf, WordsOf, TxCommand, Meaning, HeaderWord, ByteOf,
      Octet, ByteValue, WriteAll, WordOf;
    PlainWf(P.txAddr, a);
    var u := Feed(s, Encode(Plain(P.txAddr, a)));
    TxAddressFed(s, a);
    MovedWf(s, u);
    PacketStored(u, p);
    FeedTwo(s, Plain(P.txAddr, a), [TxCommand(p)]);
    assert [Plain(P.txAddr, a)] + [TxCommand(p)] == [Plain(P.txAddr, a), TxCommand(p)];
    FeedOne(u, TxCommand(p));
    FeedItem(u, TxCommand(p));
    StoredIsSent(u, Feed(u, Encode(TxCommand(p))), p, info);
  }

  /** Byte `j` of the scrambler's stream. */
  function KeyByte(seed: bool, j: nat): Byte {
    Octet(STREAM(seed, j / 4), j % 4)
  }

  /**
   * What such a packet is on the air, byte by byte: after the header the payload, each byte combined with the
   * scrambler's stream for the seed in the header.
   */
  lemma BytesOnAir(s: HostState, a: Word, p: seq<Byte>, info: HeaderInfo)
    requires s.Wf() && s.Idle() && s.part == 0 && |p| < 256
    ensures var air := AirFrame(Feed(s, EncodeAll([Plain(P.txAddr, a), TxCommand(p)])), info);
      && |air| == 1 + (|p| + 3) / 4 && air[0] == HeaderWord(info.(pdsuLength := ByteOf(|p|)))
      && forall j | 0 <= j < 4 * (|p| / 4) ::
        Octet(air[1 + j / 4], j % 4) == Plus(p[j], KeyByte(info.scramblerSeed != 0, j))
  {
    hide HostState.Wf, HostState.Idle, Feed, EncodeAll, Item.Wf, WordsOf, TxCommand, HeaderWord, ByteOf, Octet, SentFrame, Mix, Unpack, Plus;
    SendsOneFromNewAddress(s, a, p, info);
    var f := SentFrame(Feed(s, EncodeAll([Plain(P.txAddr, a), TxCommand(p)])), info);
    UnpackWordsOf(p);
    forall j | 0 <= j < 4 * (|p| / 4)
      ensures Octet(OnAir(f, info.scramblerSeed != 0)[1 + j / 4], j % 4) == Plus(p[j], KeyByte(info.scramblerSeed != 0, j))
    {
      UnpackByte(WordsOf(0, p), j);
      MixedOctet(f.payload[j / 4], STREAM(info.scramblerSeed != 0, j / 4), j % 4);
    }
  }

  lemma UnpackByte(ws: seq<Word>, j: nat)
    requires j < 4 * |ws|
    ensures Unpack(ws)[j] == Octet(ws[j / 4], j % 4)
  {}

  lemma MixedOctet(w: Word, key: Word, i: nat)
    requires i < 4
    ensures Octet(Mix(w, key), i) == Plus(Octet(w, i), Octet(key, i))
  {
    hide Octet, Mix, Plus;
    LowOctetsMixed(w, key);
    HighOctetsMixed(w, key);
  }

  lemma LowOctetsMixed(w: Word, key: Word)
    ensures Octet(Mix(w, key), 0) == Plus(Octet(w, 0), Octet(key, 0)) && Octet(Mix(w, key), 1) == Plus(Octet(w, 1), Octet(key, 1))
  {}

  lemma HighOctetsMixed(w: Word, key: Word)
    ensures Octet(Mix(w, key), 2) == Plus(Octet(w, 2), Octet(key, 2)) && Octet(Mix(w, key), 3) == Plus(Octet(w, 3), Octet(key, 3))
  {}

  lemma StoredIsSent(u: HostState, t: HostState, p: seq<Byte>, info: HeaderInfo)
    requires u.Wf() && t.Wf() && |p| < 256 && Slot(u.pktAddr) == Slot(u.loadAddr) && t.pktAddr == u.pktAddr
    requires t.cells == WriteAll(u.cells, Slot(u.loadAddr), Record(p, u.part))
    ensures var f := SentFrame(t, info);
      && f.header == HeaderWord(info.(pdsuLength := ByteOf(|p|)))
      && |f.payload| == AirWords(|p|) && f.payload[..|p| / 4] == WordsOf(u.part, p)
  {
    hide Slot, Cell, WordsOf, HeaderWord, ByteOf, Octet, ByteValue, WriteAll, WordOf, Record, CellsFrom, HostState.Wf;
    StateSizes(u);
    StateSizes(t);
    LengthInFront(u.cells, u.loadAddr, p, u.part);
    RecordTail(p, u.part);
    CellsSplit(t.cells, Slot(t.pktAddr) + 1, |p|);
    RecordWords(u.cells, Slot(u.loadAddr), Record(p, u.part));
  }

  lemma LengthInFront(cells: seq<Word>, addr: nat, p: seq<Byte>, carry: Word)
    requires |cells| == RING && |p| < 256
    ensures |Record(p, carry)| == 1 + |p| / 4
    ensures Octet(WriteAll(cells, Slot(addr), Record(p, carry))[Slot(addr)], 0) == ByteOf(|p|)
    ensures ByteValue(ByteOf(|p|)) == |p|
  {
    hide Slot, Cell, WordsOf, ByteOf, Octet, ByteValue, WriteAll, WordOf, Record;
    RecordParts(p, carry);
    CellOfSlot(addr);
    WriteAllRead(cells, Slot(addr), Record(p, carry), 0);
    LengthByte(|p|);
  }

  lemma RecordTail(p: seq<Byte>, carry: Word)
    requires |p| < TWO32
    ensures Record(p, carry)[1..] == WordsOf(carry, p)
  {
    hide WordOf, WordsOf;
  }

  lemma RecordWords(cells: seq<Word>, at: nat, ws: seq<Word>)
    requires |cells| == RING && 0 < |ws| <= RING
    ensures CellsFrom(WriteAll(cells, at, ws), at + 1, |ws| - 1) == ws[1..]
  {
    hide Cell, WriteAll;
    forall i | 0 <= i < |ws| - 1
      ensures CellsFrom(WriteAll(cells, at, ws), at + 1, |ws| - 1)[i] == ws[1..][i]
    {
      WriteAllRead(cells, at, ws, i + 1);
    }
  }

  // Loading at an address.

  lemma LoadFed(s: HostState, p: seq<Byte>)
    requires s.Wf() && s.Idle() && |p| <= 4 * RING
    ensures var t := Feed(s, Encode(LoadCommand(p)));
      && t.Wf() && t.Idle() && t.pktAddr == s.pktAddr && t.pending == s.pending && t.flash == s.flash && t.flashAddr == s.flashAddr
      && WordsAt(t.cells, s.loadAddr, |p| / 4) == WordsOf(s.part, p) && t.part == RestOf(s.part, p)
  {
    hide Value, WordOf, Feed, Encode, WordsOf, RestOf, WriteAll, WordsAt, Slot, U32;
    LoadWf(p);
    ValueOfWord(|p|);
    FeedItem(s, LoadCommand(p));
    LoadedWords(Dispatch(s, P.memLoad, WordOf(|p|)), p);
  }

  /**
   * After the commands to set the write address and to load, memory holds the payload from that address on, and the
   * transmit ring's pointers and counter are where they were.
   */
  lemma LoadsAtAddress(s: HostState, a: Word, p: seq<Byte>)
    requires s.Wf() && s.Idle() && |p| <= 4 * RING
    ensures var t := Feed(s, EncodeAll([Plain(P.memWrAddr, a), LoadCommand(p)]));
      && t.Wf() && t.Idle() && t.pktAddr == s.pktAddr && t.pending == s.pending && t.flash == s.flash && t.flashAddr == s.flashAddr
      && WordsAt(t.cells, Value(a), |p| / 4) == WordsOf(s.part, p) && t.part == RestOf(s.part, p)
  {
    hide HostState.Wf, HostState.Idle, Value, Feed, Encode, WordsOf, RestOf, WordsAt, Item.Wf, LoadCommand;
    PlainWf(P.memWrAddr, a);
    var u := Feed(s, Encode(Plain(P.memWrAddr, a)));
    WriteAddressFed(s, a);
    PointerBound(s);
    MovedWf(s, u);
    FeedTwo(s, Plain(P.memWrAddr, a), [LoadCommand(p)]);
    assert [Plain(P.memWrAddr, a)] + [LoadCommand(p)] == [Plain(P.memWrAddr, a), LoadCommand(p)];
    FeedOne(u, LoadCommand(p));
    LoadFed(u, p);
  }

  lemma PointerBound(s: HostState)
    requires s.Wf()
    ensures s.loadAddr < TWO32 && s.pktAddr < TWO32
  {}

  // And dumping it again.

  /** A command without payload, up to and with its data trigger: the first byte of its acknowledgement is sent. */
  lemma PlainRun(m: Both, cmd: Byte, arg: Word, answer: Word)
    requires m.Wf() && m.host.Idle() && !IsLoad(cmd)
    ensures var r := RunBoth(m, Controls(Encode(Plain(cmd, arg)), answer));
      && r.host == Feed(m.host, Encode(Plain(cmd, arg)))
      && |r.out.ack| == P.replySize - 1
      && r.out == Obey(m.out, cmd, arg, ReplyWord(r.host, cmd, arg, answer)).(ack := r.out.ack)
      && Obey(m.out, cmd, arg, ReplyWord(r.host, cmd, arg, answer)).ack[1..] == r.out.ack
  {
    hide Dispatch, Obey, ReplyWord, Feed, Encode, OutState.Wf, HostState.Wf, RunBoth, Controls;
    CommandRuns(m, cmd, arg, answer);
    FeedPlain(m.host, cmd, arg);
    var c := Carried(m.host, m.out, cmd, arg, answer);
    AckQueued(m.out, cmd, arg, ReplyWord(c.host, cmd, arg, answer));
    AckFirst(c);
  }

  lemma AckQueued(o: OutState, cmd: Byte, arg: Word, answer: Word)
    requires cmd != P.txPacket
    ensures |Obey(o, cmd, arg, answer).ack| == P.replySize
  {
    hide Tail, ReplyPacket, Value;
  }

  lemma AckFirst(m: Both)
    requires m.Wf() && m.out.ack != []
    ensures DataTurn(m) == m.(out := m.out.(ack := m.out.ack[1..]))
  {
    hide HostState.Wf, OutState.Wf, Slot, Octet, U32;
    IndexIs(m.out);
  }

  lemma ControlsAppend(a: seq<Byte>, b: seq<Byte>, answer: Word)
    ensures Controls(a + b, answer) == Controls(a, answer) + Controls(b, answer)
  {}

  lemma {:induction false} ControlsBytes(bytes: seq<Byte>, answer: Word)
    ensures ControlBytes(Controls(bytes, answer)) == bytes
    decreases |bytes|
  {
    if bytes != [] {
      ControlsBytes(bytes[1..], answer);
      assert Controls(bytes, answer)[1..] == Controls(bytes[1..], answer);
      assert [bytes[0]] + bytes[1..] == bytes;
    }
  }

  /** The state after the commands to set the dump address and to dump `n` bytes: the dump is about to start there. */
  lemma DumpStarts(m: Both, a: Word, n: nat, answer: Word)
    requires m.Wf() && m.host.Idle() && n < TWO32
    ensures var bytes := Encode(Plain(P.memRdAddr, a)) + Encode(Plain(P.memDump, WordOf(n)));
      var r := RunBoth(m, Controls(bytes, answer));
      && r.host.cells == m.host.cells && r.host.Idle() && Started(r.out, n, Value(a))
      && |r.out.ack| == P.replySize - 1 && r.out.reply == m.out.reply
  {
    hide Dispatch, Obey, ReplyWord, Feed, Encode, OutState.Wf, HostState.Wf, RunBoth, Controls, Value, WordOf, Tail, ReplyPacket;
    var x, y := Encode(Plain(P.memRdAddr, a)), Encode(Plain(P.memDump, WordOf(n)));
    ControlsAppend(x, y, answer);
    RunAppend(m, Controls(x, answer), Controls(y, answer));
    PlainRun(m, P.memRdAddr, a, answer);
    var u := RunBoth(m, Controls(x, answer));
    HostIsWf(m);
    HostIsWf(u);
    FeedPlain(m.host, P.memRdAddr, a);
    OnlyOutput(m.host, P.memRdAddr, a);
    ReadAddressObeyed(m.out, a, ReplyWord(u.host, P.memRdAddr, a, answer));
    PlainRun(u, P.memDump, WordOf(n), answer);
    var r := RunBoth(u, Controls(y, answer));
    HostIsWf(r);
    FeedPlain(u.host, P.memDump, WordOf(n));
    OnlyOutput(u.host, P.memDump, WordOf(n));
    ValueOfWord(n);
    DumpObeyed(u.out, n, ReplyWord(r.host, P.memDump, WordOf(n), answer));
  }

  /** These two commands leave loader and memory alone. */
  lemma OnlyOutput(s: HostState, cmd: Byte, arg: Word)
    requires s.Wf() && s.Idle() && (cmd == P.memRdAddr || cmd == P.memDump)
    ensures Dispatch(s, cmd, arg) == s.(commands := s.commands + [(cmd, arg)]) && Dispatch(s, cmd, arg).Idle()
  {
    hide Value, HostState.Wf;
  }

  lemma ReadAddressObeyed(o: OutState, a: Word, answer: Word)
    ensures var t := Obey(o, P.memRdAddr, a, answer);
      t == o.(addr := Value(a), ack := t.ack)
  {
    hide Value, Tail, ReplyPacket;
  }

  lemma DumpObeyed(o: OutState, n: nat, answer: Word)
    requires n < TWO32 && Value(WordOf(n)) == n
    ensures var t := Obey(o, P.memDump, WordOf(n), answer);
      t == StartDump(o, n, false).(ack := t.ack)
  {
    hide Value, WordOf, Tail, ReplyPacket;
  }

  predicate NoControl(hs: seq<Happening>) {
    forall h | h in hs :: !h.Control?
  }

  lemma {:induction false} NoBytes(hs: seq<Happening>)
    requires NoControl(hs)
    ensures ControlBytes(hs) == []
    decreases |hs|
  {
    if hs != [] {
      NoBytes(hs[1..]);
    }
  }

  /**
   * All four commands, from the bytes of their encoding: a payload of whole words loaded at `a` and dumped from `a`
   * comes back, whatever acknowledgements and replies are sent in between.
   */
  lemma LoadComesBack(m: Both, a: Word, p: seq<Byte>, answer: Word, hs: seq<Happening>)
    requires m.Wf() && m.host.Idle() && m.host.part == 0 && |p| % 4 == 0 && |p| <= 4 * RING && NoControl(hs)
    ensures var bytes := EncodeAll([Plain(P.memWrAddr, a), LoadCommand(p)])
                         + (Encode(Plain(P.memRdAddr, a)) + Encode(Plain(P.memDump, WordOf(|p|))));
      var r := RunBoth(m, Controls(bytes, answer) + hs).out;
      |r.dumped| + r.todo == |p| && r.dumped == p[..|r.dumped|]
  {
    hide Feed, EncodeAll, Encode, OutState.Wf, HostState.Wf, RunBoth, Controls, Value, WordOf, WordsAt, WordsOf, Unpack, RestOf,
      StreamSpares, DumpsFrom, Slot;
    var x := EncodeAll([Plain(P.memWrAddr, a), LoadCommand(p)]);
    var y := Encode(Plain(P.memRdAddr, a)) + Encode(Plain(P.memDump, WordOf(|p|)));
    ControlsAppend(x, y, answer);
    var u := RunBoth(m, Controls(x, answer));
    LoaderAlone(m, Controls(x, answer));
    ControlsBytes(x, answer);
    HostIsWf(m);
    LoadsAtAddress(m.host, a, p);
    RunAppend(m, Controls(x, answer), Controls(y, answer));
    DumpStarts(u, a, |p|, answer);
    var t := RunBoth(u, Controls(y, answer));
    RunAppend(m, Controls(x + y, answer), hs);
    NoBytes(hs);
    HostIsWf(t);
    NothingSpares(t.host, Slot(Value(a)), (|p| + 3) / 4);
    WholeLength(|p|);
    var ws := WordsAt(t.host.cells, Value(a), |p| / 4);
    StartedDumps(t.out, |p|, Value(a), ws);
    DumpGoesOn(t, hs, Value(a), |p|, ws);
    DumpedIs(RunBoth(t, hs).out, Value(a), |p|, ws);
    UnpackWhole(p);
  }

  /** And with enough data interrupts after the commands, all of it. */
  lemma AllComesBack(m: Both, a: Word, p: seq<Byte>, answer: Word)
    requires m.Wf() && m.host.Idle() && m.host.part == 0 && |p| % 4 == 0 && |p| <= 4 * RING
    ensures var bytes := EncodeAll([Plain(P.memWrAddr, a), LoadCommand(p)])
                         + (Encode(Plain(P.memRdAddr, a)) + Encode(Plain(P.memDump, WordOf(|p|))));
      var t := RunBoth(m, Controls(bytes, answer));
      forall k | k >= |t.out.ack| + |t.out.reply| + t.out.todo ::
        RunBoth(m, Controls(bytes, answer) + Datas(k)).out.dumped == p
  {
    hide EncodeAll, Encode, OutState.Wf, HostState.Wf, RunBoth, Controls, WordOf;
    var bytes := EncodeAll([Plain(P.memWrAddr, a), LoadCommand(p)])
                 + (Encode(Plain(P.memRdAddr, a)) + Encode(Plain(P.memDump, WordOf(|p|))));
    var t := RunBoth(m, Controls(bytes, answer));
    forall k | k >= |t.out.ack| + |t.out.reply| + t.out.todo
      ensures RunBoth(m, Controls(bytes, answer) + Datas(k)).out.dumped == p
    {
      LoadComesBack(m, a, p, answer, Datas(k));
      RunAppend(m, Controls(bytes, answer), Datas(k));
      AllDrains(t, k);
    }
  }

  lemma WholeLength(n: nat)
    requires n % 4 == 0
    ensures (n + 3) / 4 == n / 4
  {}

  // What comes back for a command.

  /** The acknowledgement, for acknowledgements of four bytes: known commands and unknown ones have different codes. */
  lemma Acknowledged(m: Both, cmd: Byte, arg: Word, answer: Word)
    requires m.Wf() && m.host.Idle() && !IsLoad(cmd) && P.replySize == 4
    ensures var code := if cmd in P.known then P.hbcAck else P.psocAck;
      RunBoth(m, Controls(Encode(Plain(cmd, arg)), answer)).out.ack == [code, 0, Crc(CRC8_INIT, [P.packetHeader, code, 0])]
  {
    hide Feed, Encode, OutState.Wf, HostState.Wf, RunBoth, Controls, ReplyWord, Switched, Crc, Octet, ReplyPacket;
    var code := if cmd in P.known then P.hbcAck else P.psocAck;
    PlainRun(m, cmd, arg, answer);
    ReplyBytes(code, 0);
    TailOfFour(ReplyPacket(code, 0));
  }

  /** A load is acknowledged like that before its payload comes; a transmit packet is not, whatever is pending goes on. */
  lemma LoadAcknowledged(m: Both, cmd: Byte, arg: Word, answer: Word)
    requires m.Wf() && m.host.Idle() && IsLoad(cmd) && P.replySize == 4
    ensures RunBoth(m, Controls([P.packetHeader] + Body(cmd, arg), answer)).out.ack
      == if cmd == P.memLoad then [P.hbcAck, 0, Crc(CRC8_INIT, [P.packetHeader, P.hbcAck, 0])]
         else if m.out.ack == [] then [] else m.out.ack[1..]
  {
    hide Body, OutState.Wf, HostState.Wf, RunBoth, Controls, ReplyWord, Dispatch, Crc, Octet, ReplyPacket, Value, U32, Slot;
    assert Encode(Command(cmd, arg, [])) == [P.packetHeader] + Body(cmd, arg);
    CommandRuns(m, cmd, arg, answer);
    ReplyBytes(P.hbcAck, 0);
    TailOfFour(ReplyPacket(P.hbcAck, 0));
    IndexIs(m.out);
  }

  /** The reply of a replying command, least significant byte first; the others leave a pending reply alone. */
  lemma Replied(m: Both, cmd: Byte, arg: Word, answer: Word)
    requires m.Wf() && m.host.Idle() && !IsLoad(cmd)
    ensures var r := RunBoth(m, Controls(Encode(Plain(cmd, arg)), answer));
      var w := ReplyWord(r.host, cmd, arg, answer);
      r.out.reply == if cmd in P.replying then [Octet(w, 0), Octet(w, 1), Octet(w, 2), Octet(w, 3)] else m.out.reply
  {
    hide Feed, Encode, OutState.Wf, HostState.Wf, RunBoth, Controls, ReplyWord, Octet, ReplyPacket, Value;
    PlainRun(m, cmd, arg, answer);
    var r := RunBoth(m, Controls(Encode(Plain(cmd, arg)), answer));
    TailOfFour(ReplyWord(r.host, cmd, arg, answer));
  }

  /**
   * The replies of the commands of memory and flash, byte by byte: no errors for a memory test, its own code for a
   * flash read, and for a flash write zero exactly if the flash then agrees with memory.
   */
  lemma KnownReplies(m: Both, cmd: Byte, arg: Word, answer: Word)
    requires m.Wf() && m.host.Idle() && cmd in {P.memTest, P.flashRead, P.flashWrite}
    ensures var r := RunBoth(m, Controls(Encode(Plain(cmd, arg)), answer));
      r.out.reply == if cmd == P.flashRead then [cmd, 0, 0, 0]
                     else if cmd == P.memTest || Verified(r.host, Value(arg)) then [0, 0, 0, 0]
                     else [0xff, 0xff, 0xff, 0xff]
  {
    hide Encode, RunBoth, Controls, Octet, Value, Verified, CodeWord;
    Replied(m, cmd, arg, answer);
    OctetsOfCode(cmd);
  }

  lemma OctetsOfCode(cmd: Byte)
    ensures var w := CodeWord(cmd);
      && Octet(w, 0) == cmd && Octet(w, 1) == 0 && Octet(w, 2) == 0 && Octet(w, 3) == 0
    ensures Octet(0, 0) == 0 && Octet(0, 1) == 0 && Octet(0, 2) == 0 && Octet(0, 3) == 0
    ensures var w: Word := 0xffff_ffff;
      && Octet(w, 0) == 0xff && Octet(w, 1) == 0xff && Octet(w, 2) == 0xff && Octet(w, 3) == 0xff
  {}

  // Memory test and flash.

  /** After a memory test every word is the scrambler's, from seed 0, and the reply is 0. */
  lemma MemoryTested(s: HostState, arg: Word)
    requires s.Wf() && s.Idle()
    ensures var t := Feed(s, Encode(Plain(P.memTest, arg)));
      && |t.cells| == RING && (forall i | 0 <= i < RING :: t.cells[i] == STREAM(false, i))
      && t.pktAddr == s.pktAddr && t.loadAddr == s.loadAddr && t.flash == s.flash
      && t.Wf() && KnownAnswer(t, P.memTest, arg) == Some(0)
  {
    hide Feed, Encode, Value;
    FeedPlain(s, P.memTest, arg);
  }

  /** After a flash read memory starts with the bytes of the flash, and the rest of it is as it was. */
  lemma FlashInMemory(s: HostState, arg: Word)
    requires s.Wf() && s.Idle()
    ensures var t := Feed(s, Encode(Plain(P.flashRead, arg)));
      && |t.cells| == RING && Unpack(CellsFrom(t.cells, 0, FLASH_WORDS)) == s.flash
      && (forall c | FLASH_WORDS <= c < RING :: t.cells[c] == s.cells[c])
      && t.pktAddr == s.pktAddr && t.loadAddr == s.loadAddr && t.flash == s.flash
  {
    hide Feed, Encode, Value, WriteAll, Pack, Unpack, ReadBack;
    FeedPlain(s, P.flashRead, arg);
    WholeFlash(s.flash);
    var ws := Pack(s.flash);
    PackLength(s.flash);
    UnpackPack(s.flash);
    CopiedWords(s.cells, ws);
  }

  lemma PackLength(flash: seq<Byte>)
    requires |flash| == FLASH_SIZE
    ensures |Pack(flash)| == FLASH_WORDS
  {}

  lemma WholeFlash(flash: seq<Byte>)
    requires |flash| == FLASH_SIZE
    ensures ReadBack(flash, 0, FLASH_SIZE) == flash
  {}

  lemma CopiedWords(cells: seq<Word>, ws: seq<Word>)
    requires |cells| == RING && |ws| == FLASH_WORDS
    ensures var t := WriteAll(cells, 0, ws);
      CellsFrom(t, 0, FLASH_WORDS) == ws && forall c | FLASH_WORDS <= c < RING :: t[c] == cells[c]
  {
    hide WriteAll;
    var t := WriteAll(cells, 0, ws);
    forall i | 0 <= i < FLASH_WORDS
      ensures CellsFrom(t, 0, FLASH_WORDS)[i] == ws[i]
    {
      WriteAllRead(cells, 0, ws, i);
    }
    forall c | FLASH_WORDS <= c < RING
      ensures t[c] == cells[c]
    {
      CellOf(c);
      WriteAllOther(cells, 0, ws, c);
    }
  }

  /** The words at address 0 are those from cell 0 on. */
  lemma WordsAtZero(cells: seq<Word>, k: nat)
    requires |cells| == RING
    ensures WordsAt(cells, 0, k) == CellsFrom(cells, 0, k)
  {
    hide Cell, Slot;
    CellOf(0);
    forall i | 0 <= i < k
      ensures WordsAt(cells, 0, k)[i] == CellsFrom(cells, 0, k)[i]
    {
      SlotStep(0, i);
      SlotOfZero();
    }
  }

  lemma SlotOfZero()
    ensures Slot(0) == 0
  {}

  /** What is at the start of memory when a flash write comes. */
  lemma MemoryStart(cells: seq<Word>, p: seq<Byte>, n: nat)
    requires |cells| == RING && |p| % 4 == 0 && |p| <= 4 * n
    requires WordsAt(cells, 0, |p| / 4) == WordsOf(0, p)
    ensures MemoryBytes(cells, 0, n)[..|p|] == p
  {
    hide Cell, WordsOf, Octet, Unpack, WordsAt;
    var k := |p| / 4;
    UnpackWhole(p);
    WordsAtZero(cells, k);
    var ws := CellsFrom(cells, 0, n);
    assert ws == CellsFrom(cells, 0, k) + ws[k..];
    UnpackAppend(CellsFrom(cells, 0, k), ws[k..]);
  }

  /** The four commands that put a payload into the flash. */
  function ToFlash(a: Word, p: seq<Byte>): seq<Item>
    requires |p| < TWO32
  {
    [Plain(P.flashWriteAddr, a), Plain(P.flashWrite, WordOf(|p|))]
  }

  lemma FlashWriteFed(s: HostState, a: Word, p: seq<Byte>)
    requires s.Wf() && s.Idle() && |p| < TWO32
    ensures var t := Feed(s, EncodeAll(ToFlash(a, p)));
      && t.Wf() && t.flash == FlashWritten(s.flash, Value(a), |p|, s.cells) && t.flashAddr == Value(a)
      && t.cells == s.cells && t.pktAddr == s.pktAddr && t.loadAddr == s.loadAddr
  {
    hide Feed, Encode, Value, WordOf, FlashWritten;
    PlainWf(P.flashWriteAddr, a);
    var u := Feed(s, Encode(Plain(P.flashWriteAddr, a)));
    FeedPlain(s, P.flashWriteAddr, a);
    FeedTwo(s, Plain(P.flashWriteAddr, a), [Plain(P.flashWrite, WordOf(|p|))]);
    assert [Plain(P.flashWriteAddr, a)] + [Plain(P.flashWrite, WordOf(|p|))] == ToFlash(a, p);
    FeedOne(u, Plain(P.flashWrite, WordOf(|p|)));
    FeedPlain(u, P.flashWrite, WordOf(|p|));
    ValueOfWord(|p|);
  }

  /**
   * A payload of whole words loaded at the start of memory and written to the flash at `a` is in the flash from `a`
   * on, if it can be read back there at all, and the reply is 0.
   */
  lemma PayloadInFlash(s: HostState, a: Word, p: seq<Byte>)
    requires s.Wf() && s.Idle() && |p| % 4 == 0 && |p| <= FLASH_SIZE && ReadableBack(Value(a), |p|)
    requires WordsAt(s.cells, 0, |p| / 4) == WordsOf(0, p)
    ensures var t := Feed(s, EncodeAll(ToFlash(a, p)));
      t.Wf() && ReadBack(t.flash, Value(a), |p|) == p && KnownAnswer(t, P.flashWrite, WordOf(|p|)) == Some(0)
  {
    hide Feed, EncodeAll, Value, WordOf, WordsAt, WordsOf, ReadBack, AfterWrite, MemoryBytes, ReadableBack, Pack, CellsFrom, Verified,
      HostState.Wf, NumPages;
    StateSizes(s);
    FlashWriteFed(s, a, p);
    NumPagesLeast(|p|, NumPages(|p|));
    var n := 64 * NumPages(|p|);
    MemoryStart(s.cells, p, n);
    WriteThenRead(s.flash, Value(a), |p|, MemoryBytes(s.cells, 0, n));
    assert ReadSize(|p|) == |p|;
    WordsRestored(s.flash, s.cells, 0, Value(a), |p|);
    ValueOfWord(|p|);
    VerifiedIs(Feed(s, EncodeAll(ToFlash(a, p))), |p|);
  }

  lemma VerifiedIs(t: HostState, size: nat)
    requires t.Wf() && Pack(ReadBack(t.flash, t.flashAddr, ReadSize(size))) == CellsFrom(t.cells, 0, size / 4)
    ensures Verified(t, size)
  {}

  /** Byte by byte, when the reply to a flash write is zero. */
  lemma VerifiedIff(s: HostState, size: nat)
    requires s.Wf()
    ensures Verified(s, size)
      <==> forall j | 0 <= j < 4 * (size / 4) :: s.flash[(s.flashAddr + j) % FLASH_SIZE] == Octet(s.cells[Cell(j / 4)], j % 4)
  {
    hide Octet, Pack, Unpack, CellsFrom, Cell, HostState.Wf;
    StateSizes(s);
    var bytes, ws := ReadBack(s.flash, s.flashAddr, ReadSize(size)), CellsFrom(s.cells, 0, size / 4);
    UnpackPack(bytes);
    PackUnpack(ws);
    forall j | 0 <= j < |bytes|
      ensures Unpack(ws)[j] == Octet(s.cells[Cell(j / 4)], j % 4) && bytes[j] == s.flash[(s.flashAddr + j) % FLASH_SIZE]
    {
      UnpackByte(ws, j);
      CellsFromAt(s.cells, size / 4, j / 4);
    }
    assert Verified(s, size) <==> bytes == Unpack(ws);
  }

  lemma CellsFromAt(cells: seq<Word>, n: nat, i: nat)
    requires |cells| == RING && i < n
    ensures CellsFrom(cells, 0, n)[i] == cells[Cell(i)]
  {}
}
