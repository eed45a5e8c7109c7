/**
 * The transmit ring under a host that streams packets: the loader fills it byte by byte, in the control
 * interrupt, while the main loop sends from it.
 */
module TxRing {
  import opened Words
  import opened Crc8
  import opened Plcp
  import opened Ring
  import opened HostProtocol
  import opened HostPort
  import opened BuildTx
  import opened ExtractRx
  import opened MainLoop

  /** The payloads whose length fits the 8-bit field. */
  predicate Sendable(p: seq<Byte>) {
    |p| < 256
  }

  predicate AllSendable(ps: seq<seq<Byte>>) {
    forall i | 0 <= i < |ps| :: Sendable(ps[i])
  }

  function TxCommand(p: seq<Byte>): Item
    requires |p| < TWO32
  {
    Command(P.txPacket, WordOf(|p|), p)
  }

  function TxBody(p: seq<Byte>): (b: seq<Byte>)
    requires |p| < TWO32
    ensures |b| == P.packetSize
  {
    Body(P.txPacket, WordOf(|p|))
  }

  /** Byte `off` of an encoded packet. */
  function PacketByte(p: seq<Byte>, off: nat): Byte
    requires |p| < TWO32 && off < 1 + P.packetSize + |p|
  {
    if off == 0 then P.packetHeader
    else if off <= P.packetSize then TxBody(p)[off - 1]
    else p[off - 1 - P.packetSize]
  }

  /** These are the bytes of the host's encoding of the packet. */
  lemma PacketBytes(p: seq<Byte>)
    requires |p| < TWO32
    ensures TxCommand(p).Wf()
    ensures Encode(TxCommand(p)) == seq(1 + P.packetSize + |p|, i requires 0 <= i < 1 + P.packetSize + |p| => PacketByte(p, i))
  {
    hide Value, WordOf, Body;
    ValueOfWord(|p|);
  }

  /** What the first `k` packets leave behind in the word under assembly. */
  function Carry(ps: seq<seq<Byte>>, k: nat): Word
    requires k <= |ps|
  {
    if k == 0 then 0 else RestOf(Carry(ps, k - 1), ps[k - 1])
  }

  /** A packet in the ring: its length and its whole words, the first on top of what was left behind. */
  function Record(p: seq<Byte>, carry: Word): seq<Word>
    requires |p| < TWO32
  {
    [WordOf(|p|)] + WordsOf(carry, p)
  }

  function Records(ps: seq<seq<Byte>>, k: nat): seq<Word>
    requires AllSendable(ps) && k <= |ps|
  {
    if k == 0 then [] else Records(ps, k - 1) + Record(ps[k - 1], Carry(ps, k - 1))
  }

  /** The words of a packet of which `off` encoded bytes have arrived. */
  function Partial(p: seq<Byte>, carry: Word, off: nat): seq<Word>
    requires |p| < TWO32 && off <= 1 + P.packetSize + |p|
  {
    if off <= P.packetSize then [] else [WordOf(|p|)] + WordsOf(carry, p[..off - 1 - P.packetSize])
  }

  /** All words that the loader has stored when packet `k` has arrived up to byte `off`. */
  function Stored(ps: seq<seq<Byte>>, k: nat, off: nat): seq<Word>
    requires AllSendable(ps) && At(ps, k, off)
  {
    Records(ps, k) + (if k < |ps| then Partial(ps[k], Carry(ps, k), off) else [])
  }

  predicate At(ps: seq<seq<Byte>>, k: nat, off: nat) {
    k <= |ps| && (if k == |ps| then off == 0 else off < 1 + P.packetSize + |ps[k]|)
  }

  /** The position after one more byte. */
  function Advance(ps: seq<seq<Byte>>, k: nat, off: nat): (nat, nat)
    requires k < |ps|
  {
    if off == P.packetSize + |ps[k]| then (k + 1, 0) else (k, off + 1)
  }

  /** Where the host's stream starts in the ring, and what memory held then. */
  datatype Origin = Origin(at: nat, cells: seq<Word>)

  /** Memory after the words `w` have been loaded. */
  predicate Holds(cells: seq<Word>, base: Origin, w: seq<Word>) {
    |base.cells| == RING && cells == WriteAll(base.cells, base.at, w)
  }

  lemma HoldsWindow(cells: seq<Word>, base: Origin, w: seq<Word>)
    requires Holds(cells, base, w)
    ensures |cells| == RING && Window(cells, base.at, w)
  {
    hide WriteAll, Window;
    StreamInCells(base.cells, base.at, w);
  }

  /** The loader's registers while packet `p` has arrived up to byte `off`. */
  predicate LoaderAt(p: seq<Byte>, carry: Word, off: nat, s: HostState)
    requires |p| < TWO32 && off < 1 + P.packetSize + |p|
  {
    if off <= P.packetSize then
      && s.loading == 0 && s.part == carry
      && (off > 0 ==> s.got == Some(TxBody(p)[..off - 1]))
    else
      var m := off - 1 - P.packetSize;
      && s.got == None && s.loading == |p| - m
      && s.index == m % 4 && s.part == RestOf(carry, p[..m])
  }

  /**
   * The loader's whole state, at position (`k`, `off`) of the host's stream.  Between packets it may
   * also be inside a damaged one.
   */
  predicate HostAt(ps: seq<seq<Byte>>, k: nat, off: nat, s: HostState, base: Origin)
    requires AllSendable(ps)
  {
    && At(ps, k, off) && s.Wf()
    && (if k == |ps| then s.loading == 0 && s.part == Carry(ps, k) else LoaderAt(ps[k], Carry(ps, k), off, s))
    && Holds(s.cells, base, Stored(ps, k, off))
    && Slot(s.loadAddr) == Cell(base.at + |Stored(ps, k, off)|)
  }

  /** One more payload byte either fills a word or goes into the word under assembly. */
  lemma {:induction false} WordsSnoc(part: Word, bytes: seq<Byte>)
    requires bytes != []
    ensures var n := |bytes| - 1;
      && WordsOf(part, bytes) == WordsOf(part, bytes[..n])
           + (if n % 4 == 3 then [Place(RestOf(part, bytes[..n]), bytes[n], 3)] else [])
      && RestOf(part, bytes) == (if n % 4 == 3 then 0 else Place(RestOf(part, bytes[..n]), bytes[n], n % 4))
    decreases |bytes|
  {
    hide Place;
    var n := |bytes| - 1;
    if |bytes| > 4 {
      WordsSnoc(0, bytes[4..]);
      assert bytes[4..][..n - 4] == bytes[..n][4..];
      assert (n - 4) % 4 == n % 4;
    } else if |bytes| == 4 {
      assert WordsOf(0, bytes[4..]) == [] && RestOf(0, bytes[4..]) == 0;
    }
  }

  /** The stream position one step on, while the packet is not complete. */
  lemma StoredNext(ps: seq<seq<Byte>>, k: nat, off: nat)
    requires AllSendable(ps) && k < |ps| && At(ps, k, off)
    ensures var (k', off') := Advance(ps, k, off);
      At(ps, k', off') && Stored(ps, k', off') == Records(ps, k) + Partial(ps[k], Carry(ps, k), off + 1)
  {
    hide WordsOf, WordOf, Records, Partial, Carry;
    if off == P.packetSize + |ps[k]| {
      StoredComplete(ps, k);
    }
  }

  lemma StoredComplete(ps: seq<seq<Byte>>, k: nat)
    requires AllSendable(ps) && k < |ps|
    ensures Stored(ps, k + 1, 0) == Records(ps, k) + Partial(ps[k], Carry(ps, k), 1 + P.packetSize + |ps[k]|)
  {
    hide WordsOf, WordOf, Carry;
    assert ps[k][..|ps[k]|] == ps[k];
    assert Stored(ps, k + 1, 0) == Records(ps, k + 1);
  }

  /** A byte of the command packet before its last. */
  lemma CommandByteArrives(p: seq<Byte>, carry: Word, off: nat, s: HostState)
    requires |p| < TWO32 && off < P.packetSize && s.Wf() && LoaderAt(p, carry, off, s) && (off == 0 ==> s.got == None)
    ensures var t := CtrlByte(s, PacketByte(p, off));
      LoaderAt(p, carry, off + 1, t) && t == s.(got := t.got)
  {
    hide TxBody;
    if off > 0 {
      assert TxBody(p)[..off - 1] + [TxBody(p)[off - 1]] == TxBody(p)[..off];
    }
  }

  /** The last byte of the command packet opens the load and stores the length. */
  lemma CommandEnds(p: seq<Byte>, carry: Word, s: HostState)
    requires |p| < TWO32 && s.Wf() && LoaderAt(p, carry, P.packetSize, s)
    ensures CtrlByte(s, PacketByte(p, P.packetSize))
      == s.(got := None, loading := |p|, index := 0, pending := s.pending + 1,
            commands := s.commands + [(P.txPacket, WordOf(|p|))],
            cells := s.cells[Slot(s.loadAddr) := WordOf(|p|)], loadAddr := U32(s.loadAddr + 4))
  {
    hide Body, Value, WordOf, Crc, U32, Slot;
    var b := TxBody(p);
    assert b[..P.packetSize - 1] + [b[P.packetSize - 1]] == b;
    BodyParses(P.txPacket, WordOf(|p|));
    ValueOfWord(|p|);
  }

  /** A payload byte. */
  lemma PayloadByteArrives(p: seq<Byte>, carry: Word, off: nat, s: HostState)
    requires |p| < TWO32 && P.packetSize < off < 1 + P.packetSize + |p| && s.Wf() && LoaderAt(p, carry, off, s)
    ensures var m := off - 1 - P.packetSize;
      CtrlByte(s, p[m])
        == if m % 4 == 3
             then s.(loading := s.loading - 1, index := 0, part := 0,
                     cells := s.cells[Slot(s.loadAddr) := Place(RestOf(carry, p[..m]), p[m], 3)],
                     loadAddr := U32(s.loadAddr + 4))
           else s.(loading := s.loading - 1, index := m % 4 + 1, part := Place(RestOf(carry, p[..m]), p[m], m % 4))
  {
    hide Place, RestOf, U32, Slot;
  }

  /** Storing one more word keeps memory and load address in step with the stream. */
  lemma WordStored(s: HostState, base: Origin, w: seq<Word>, x: Word)
    requires s.Wf() && Holds(s.cells, base, w) && Slot(s.loadAddr) == Cell(base.at + |w|)
    ensures Holds(s.cells[Slot(s.loadAddr) := x], base, w + [x])
    ensures Slot(U32(s.loadAddr + 4)) == Cell(base.at + |w + [x]|)
  {
    hide Slot, Cell, U32, WriteAll;
    WriteAllSnoc(base.cells, base.at, w, x);
    SlotStep(s.loadAddr, 1);
    CellAdd(base.at + |w|, 1);
  }

  /** Memory holds the words of the first `k` packets and the first `off` bytes' worth of the next. */
  predicate MemoryAt(ps: seq<seq<Byte>>, k: nat, off: nat, s: HostState, base: Origin)
    requires AllSendable(ps) && k < |ps| && off <= 1 + P.packetSize + |ps[k]|
  {
    var w := Records(ps, k) + Partial(ps[k], Carry(ps, k), off);
    s.Wf() && Holds(s.cells, base, w) && Slot(s.loadAddr) == Cell(base.at + |w|)
  }

  predicate LoaderNext(p: seq<Byte>, carry: Word, off: nat, s: HostState)
    requires |p| < TWO32 && off <= 1 + P.packetSize + |p|
  {
    if off == 1 + P.packetSize + |p| then s.Idle() && s.part == RestOf(carry, p) else LoaderAt(p, carry, off, s)
  }

  lemma CommandByteKept(ps: seq<seq<Byte>>, k: nat, off: nat, s: HostState, base: Origin)
    requires AllSendable(ps) && k < |ps| && off < P.packetSize && (off == 0 ==> s.got == None)
    requires LoaderAt(ps[k], Carry(ps, k), off, s) && MemoryAt(ps, k, off, s, base)
    ensures var t := CtrlByte(s, PacketByte(ps[k], off));
      && LoaderNext(ps[k], Carry(ps, k), off + 1, t) && MemoryAt(ps, k, off + 1, t, base)
      && t.pending == s.pending && t.pktAddr == s.pktAddr
  {
    hide Holds, Slot, Cell, TxBody, CtrlByte, Records, Carry;
    CommandByteArrives(ps[k], Carry(ps, k), off, s);
    assert Partial(ps[k], Carry(ps, k), off + 1) == Partial(ps[k], Carry(ps, k), off) == [];
  }

  lemma OpenKept(ps: seq<seq<Byte>>, k: nat, s: HostState, base: Origin)
    requires AllSendable(ps) && k < |ps|
    requires LoaderAt(ps[k], Carry(ps, k), P.packetSize, s) && MemoryAt(ps, k, P.packetSize, s, base)
    ensures var t := CtrlByte(s, PacketByte(ps[k], P.packetSize));
      && LoaderNext(ps[k], Carry(ps, k), P.packetSize + 1, t) && MemoryAt(ps, k, P.packetSize + 1, t, base)
      && t.pending == s.pending + 1 && t.pktAddr == s.pktAddr
  {
    hide Holds, Slot, Cell, U32, TxBody, WordOf, CtrlByte, Records, Carry;
    var p, c := ps[k], Carry(ps, k);
    CommandEnds(p, c, s);
    assert p[..0] == [] && (p == [] ==> RestOf(c, p) == c);
    assert Partial(p, c, P.packetSize) == [] && Partial(p, c, P.packetSize + 1) == [WordOf(|p|)];
    assert Records(ps, k) + [] == Records(ps, k);
    WordStored(s, base, Records(ps, k), WordOf(|p|));
  }

  lemma PayloadKept(ps: seq<seq<Byte>>, k: nat, off: nat, s: HostState, base: Origin)
    requires AllSendable(ps) && k < |ps| && P.packetSize < off < 1 + P.packetSize + |ps[k]|
    requires LoaderAt(ps[k], Carry(ps, k), off, s) && MemoryAt(ps, k, off, s, base)
    ensures var t := CtrlByte(s, PacketByte(ps[k], off));
      && LoaderNext(ps[k], Carry(ps, k), off + 1, t) && MemoryAt(ps, k, off + 1, t, base)
      && t.pending == s.pending && t.pktAddr == s.pktAddr
  {
    hide Holds, Slot, Cell, U32, TxBody, WordOf, Place, CtrlByte, Records, WordsOf, RestOf, Carry;
    var p, c, m := ps[k], Carry(ps, k), off - 1 - P.packetSize;
    var w := Records(ps, k) + Partial(p, c, off);
    PayloadByteArrives(p, c, off, s);
    assert p[..m + 1][..m] == p[..m] && p[..m + 1][m] == p[m];
    assert m + 1 == |p| ==> p[..m + 1] == p;
    WordsSnoc(c, p[..m + 1]);
    if m % 4 == 3 {
      var x := Place(RestOf(c, p[..m]), p[m], 3);
      WordStored(s, base, w, x);
      assert Records(ps, k) + Partial(p, c, off + 1) == w + [x];
    } else {
      assert Partial(p, c, off + 1) == Partial(p, c, off);
    }
  }

  lemma PacketDone(ps: seq<seq<Byte>>, k: nat, t: HostState, base: Origin)
    requires AllSendable(ps) && k < |ps|
    requires LoaderNext(ps[k], Carry(ps, k), 1 + P.packetSize + |ps[k]|, t)
    requires MemoryAt(ps, k, 1 + P.packetSize + |ps[k]|, t, base)
    ensures HostAt(ps, k + 1, 0, t, base) && t.got == None
  {
    hide Holds, Slot, Cell, TxBody, Records, Partial, RestOf, Stored;
    StoredComplete(ps, k);
  }

  lemma PacketGoesOn(ps: seq<seq<Byte>>, k: nat, off: nat, t: HostState, base: Origin)
    requires AllSendable(ps) && k < |ps| && off < P.packetSize + |ps[k]|
    requires LoaderNext(ps[k], Carry(ps, k), off + 1, t) && MemoryAt(ps, k, off + 1, t, base)
    ensures HostAt(ps, k, off + 1, t, base)
  {
    hide Holds, Slot, Cell, TxBody, Records, Partial, RestOf, Carry;
  }

  lemma NextIs(ps: seq<seq<Byte>>, k: nat, off: nat, t: HostState, base: Origin)
    requires AllSendable(ps) && k < |ps| && At(ps, k, off)
    requires LoaderNext(ps[k], Carry(ps, k), off + 1, t) && MemoryAt(ps, k, off + 1, t, base)
    ensures var (k', off') := Advance(ps, k, off);
      HostAt(ps, k', off', t, base) && (off' == 0 ==> t.got == None)
  {
    hide LoaderNext, MemoryAt, HostAt, Carry;
    if off == P.packetSize + |ps[k]| {
      PacketDone(ps, k, t, base);
    } else {
      PacketGoesOn(ps, k, off, t, base);
    }
  }

  /** Each control interrupt keeps the loader in step with the host's stream. */
  lemma ByteArrives(ps: seq<seq<Byte>>, k: nat, off: nat, s: HostState, base: Origin)
    requires AllSendable(ps) && k < |ps| && HostAt(ps, k, off, s, base) && (off == 0 ==> s.got == None)
    ensures var (k', off') := Advance(ps, k, off);
      var t := CtrlByte(s, PacketByte(ps[k], off));
      && HostAt(ps, k', off', t, base) && (off' == 0 ==> t.got == None)
      && t.pending == s.pending + (if off == P.packetSize then 1 else 0) && t.pktAddr == s.pktAddr
  {
    hide CtrlByte, LoaderAt, LoaderNext, Holds, Records, Partial, PacketByte, Carry;
    assert MemoryAt(ps, k, off, s, base);
    if off < P.packetSize {
      CommandByteKept(ps, k, off, s, base);
    } else if off == P.packetSize {
      OpenKept(ps, k, s, base);
    } else {
      PayloadKept(ps, k, off, s, base);
    }
    NextIs(ps, k, off, CtrlByte(s, PacketByte(ps[k], off)), base);
  }

  // Sending.

  lemma LengthByte(n: nat)
    requires n < 256
    ensures Octet(WordOf(n), 0) == ByteOf(n)
  {
    hide Octet, ByteOf, WordOf;
    SmallRemainder(n);
    LowByte(n);
  }

  lemma SmallRemainder(n: nat)
    requires n < 256
    ensures n % 256 == n
  {}

  /** Earlier records stay a prefix of all that has been stored. */
  lemma {:induction false} RecordsPrefix(ps: seq<seq<Byte>>, t: nat, k: nat)
    requires AllSendable(ps) && t <= k <= |ps|
    ensures Records(ps, t) <= Records(ps, k)
  {
    hide Record, Carry;
    if t < k {
      RecordsPrefix(ps, t, k - 1);
    }
  }

  /** Packet `t` lies in the stream at the end of the packets before it. */
  lemma RecordAt(ps: seq<seq<Byte>>, t: nat, k: nat, off: nat, i: nat)
    requires AllSendable(ps) && t < k && At(ps, k, off) && i < |Record(ps[t], Carry(ps, t))|
    ensures |Records(ps, t)| + i < |Stored(ps, k, off)|
    ensures Stored(ps, k, off)[|Records(ps, t)| + i] == Record(ps[t], Carry(ps, t))[i]
  {
    hide Record, Partial, Carry;
    RecordsPrefix(ps, t + 1, k);
  }

  /** No word of packet `t` or a later one has been overwritten. */
  predicate TxIntact(ps: seq<seq<Byte>>, k: nat, off: nat, t: nat)
    requires AllSendable(ps) && At(ps, k, off) && t <= |ps|
  {
    |Stored(ps, k, off)| - RING <= |Records(ps, t)|
  }

  /** The word that the packet pointer reaches in `i` steps is the stream's, once it has been stored. */
  lemma StreamWord(ps: seq<seq<Byte>>, k: nat, off: nat, s: HostState, base: Origin, t: nat, i: nat)
    requires AllSendable(ps) && HostAt(ps, k, off, s, base) && t <= |ps|
    requires Slot(s.pktAddr) == Cell(base.at + |Records(ps, t)|) && TxIntact(ps, k, off, t)
    requires |Records(ps, t)| + i < |Stored(ps, k, off)|
    ensures s.cells[Cell(Slot(s.pktAddr) + i)] == Stored(ps, k, off)[|Records(ps, t)| + i]
  {
    hide Records, Stored, Holds, Slot, Cell, LoaderAt, Carry;
    HoldsWindow(s.cells, base, Stored(ps, k, off));
    WindowRead(s.cells, base.at, Stored(ps, k, off), |Records(ps, t)| + i);
    CellAdd(base.at + |Records(ps, t)|, i);
  }

  /** Word `i` of packet `t`, read through the packet pointer. */
  lemma PacketWord(ps: seq<seq<Byte>>, k: nat, off: nat, s: HostState, base: Origin, t: nat, i: nat)
    requires AllSendable(ps) && HostAt(ps, k, off, s, base) && t < k && i < |Record(ps[t], Carry(ps, t))|
    requires Slot(s.pktAddr) == Cell(base.at + |Records(ps, t)|) && TxIntact(ps, k, off, t)
    ensures s.cells[Cell(Slot(s.pktAddr) + i)] == Record(ps[t], Carry(ps, t))[i]
  {
    hide Record, Records, Stored, HostAt, Slot, Cell, Carry, TxIntact;
    AtIs(ps, k, off, s, base);
    RecordAt(ps, t, k, off, i);
    StreamWord(ps, k, off, s, base, t, i);
  }

  lemma AtIs(ps: seq<seq<Byte>>, k: nat, off: nat, s: HostState, base: Origin)
    requires AllSendable(ps) && HostAt(ps, k, off, s, base)
    ensures At(ps, k, off) && s.Wf()
  {
    hide LoaderAt, Holds, Stored, Slot, Cell;
  }

  /** The words after the length word, as the transmitter reads them. */
  lemma PacketWords(ps: seq<seq<Byte>>, k: nat, off: nat, s: HostState, base: Origin, t: nat)
    requires AllSendable(ps) && HostAt(ps, k, off, s, base) && t < k
    requires Slot(s.pktAddr) == Cell(base.at + |Records(ps, t)|) && TxIntact(ps, k, off, t)
    ensures s.cells[Slot(s.pktAddr)] == WordOf(|ps[t]|)
    ensures CellsFrom(s.cells, Slot(s.pktAddr) + 1, |ps[t]| / 4) == WordsOf(Carry(ps, t), ps[t])
  {
    hide HostAt, Records, TxIntact, Slot, Cell, WordsOf, WordOf, Carry;
    AtIs(ps, k, off, s, base);
    var ws := WordsOf(Carry(ps, t), ps[t]);
    PacketWord(ps, k, off, s, base, t, 0);
    CellOfSlot(s.pktAddr);
    forall i | 0 <= i < |ws|
      ensures s.cells[Cell(Slot(s.pktAddr) + 1 + i)] == ws[i]
    {
      PacketWord(ps, k, off, s, base, t, i + 1);
    }
  }

  /** The words of a payload of `n` bytes: the whole ones, and one more if they do not make it up. */
  lemma CellsSplit(cells: seq<Word>, at: nat, n: nat)
    requires |cells| == RING
    ensures CellsFrom(cells, at, AirWords(n))
      == CellsFrom(cells, at, n / 4) + if n % 4 != 0 then [cells[Cell(at + n / 4)]] else []
  {
    hide Cell;
  }

  /**
   * The word that is sent after the whole words of packet `t`, when its length is not a multiple of four:
   * the next packet's length, if that packet has been announced, and otherwise what the next cell of the
   * ring held before.
   */
  function TailWord(ps: seq<seq<Byte>>, base: Origin, t: nat, announced: bool): Word
    requires AllSendable(ps) && t < |ps| && |base.cells| == RING
  {
    if announced && t + 1 < |ps| then WordOf(|ps[t + 1]|) else Held(base.cells, base.at, Records(ps, t + 1))
  }

  /** All words of the frame that packet `t` becomes. */
  function FrameWords(ps: seq<seq<Byte>>, base: Origin, t: nat, announced: bool): (ws: seq<Word>)
    requires AllSendable(ps) && t < |ps| && |base.cells| == RING
    ensures |ws| == AirWords(|ps[t]|)
  {
    WordsOf(Carry(ps, t), ps[t]) + if |ps[t]| % 4 != 0 then [TailWord(ps, base, t, announced)] else []
  }

  /** The frame that packet `t` becomes. */
  function FrameOf(ps: seq<seq<Byte>>, base: Origin, t: nat, announced: bool, info: HeaderInfo): Frame
    requires AllSendable(ps) && t < |ps| && |base.cells| == RING
  {
    Frame(HeaderWord(info.(pdsuLength := ByteOf(|ps[t]|))), FrameWords(ps, base, t, announced))
  }

  /** Whether a packet after packet `t` has been announced at position (`k`, `off`) of the host's stream. */
  predicate Announced(ps: seq<seq<Byte>>, k: nat, off: nat, t: nat) {
    t + 1 < k || (t + 1 == k < |ps| && off > P.packetSize)
  }

  /** What the transmitter finds there. */
  lemma TailIs(ps: seq<seq<Byte>>, k: nat, off: nat, s: HostState, base: Origin, t: nat)
    requires AllSendable(ps) && HostAt(ps, k, off, s, base) && t < k
    requires Slot(s.pktAddr) == Cell(base.at + |Records(ps, t)|) && TxIntact(ps, k, off, t)
    ensures |base.cells| == RING && |s.cells| == RING
    ensures s.cells[Cell(Slot(s.pktAddr) + (1 + |ps[t]| / 4))] == TailWord(ps, base, t, Announced(ps, k, off, t))
  {
    hide HostAt, Records, TxIntact, Slot, Cell, WordsOf, WordOf, Carry, Stored, Held, Holds;
    AtIs(ps, k, off, s, base);
    CellsAre(ps, k, off, s, base);
    RecordSize(ps, t);
    if Announced(ps, k, off, t) {
      LengthFollows(ps, t, k, off);
      StreamWord(ps, k, off, s, base, t, 1 + |ps[t]| / 4);
    } else {
      NothingFollows(ps, t, k, off);
      NextHeld(s.cells, base, Records(ps, t + 1));
      CellAdd(base.at + |Records(ps, t)|, 1 + |ps[t]| / 4);
    }
  }

  lemma CellsAre(ps: seq<seq<Byte>>, k: nat, off: nat, s: HostState, base: Origin)
    requires AllSendable(ps) && HostAt(ps, k, off, s, base)
    ensures |base.cells| == RING && |s.cells| == RING && At(ps, k, off) && Holds(s.cells, base, Stored(ps, k, off))
  {
    hide LoaderAt, Stored, Slot, Cell, WriteAll, Carry;
  }

  lemma NextHeld(cells: seq<Word>, base: Origin, w: seq<Word>)
    requires Holds(cells, base, w)
    ensures |cells| == RING && cells[Cell(base.at + |w|)] == Held(base.cells, base.at, w)
  {
    hide Held, Cell, WriteAll;
    HeldIs(base.cells, base.at, w);
  }

  lemma NothingFollows(ps: seq<seq<Byte>>, t: nat, k: nat, off: nat)
    requires AllSendable(ps) && At(ps, k, off) && t < k && !Announced(ps, k, off, t)
    ensures Stored(ps, k, off) == Records(ps, t + 1)
  {
    hide WordsOf, WordOf, Carry, Records;
  }

  /**
   * A completely loaded packet that has not been overrun goes on the air as the loader stored it, and the
   * packet pointer then stands at the next packet, whatever the length.
   */
  lemma SendsPacket(ps: seq<seq<Byte>>, k: nat, off: nat, s: HostState, base: Origin, t: nat, info: HeaderInfo)
    requires AllSendable(ps) && HostAt(ps, k, off, s, base) && t < k
    requires Slot(s.pktAddr) == Cell(base.at + |Records(ps, t)|) && TxIntact(ps, k, off, t)
    ensures |base.cells| == RING && s.Wf() && PacketLength(s) == ByteOf(|ps[t]|)
    ensures SentFrame(s, info) == FrameOf(ps, base, t, Announced(ps, k, off, t), info)
    ensures Slot(AfterFrame(s).pktAddr) == Cell(base.at + |Records(ps, t + 1)|)
    ensures HostAt(ps, k, off, AfterFrame(s), base)
  {
    hide Record, Records, TxIntact, Slot, Cell, WordsOf, WordOf, CellsFrom, HeaderWord, Octet, ByteOf, ByteValue, Holds, Stored,
      Carry, TailWord, Announced;
    var p := ps[t];
    PacketWords(ps, k, off, s, base, t);
    TailIs(ps, k, off, s, base, t);
    LengthByte(|p|);
    RecordSize(ps, t);
    CellsSplit(s.cells, Slot(s.pktAddr) + 1, |p|);
    NextPacketSlot(s.pktAddr, |p| / 4);
    CellAdd(base.at + |Records(ps, t)|, |p| / 4 + 1);
  }

  lemma LengthFollows(ps: seq<seq<Byte>>, t: nat, k: nat, off: nat)
    requires AllSendable(ps) && At(ps, k, off) && t < k && Announced(ps, k, off, t)
    ensures t + 1 < |ps| && |Records(ps, t + 1)| < |Stored(ps, k, off)|
    ensures Stored(ps, k, off)[|Records(ps, t + 1)|] == WordOf(|ps[t + 1]|)
  {
    hide WordsOf, WordOf, Carry, Records;
    if t + 1 < k {
      RecordAt(ps, t + 1, k, off, 0);
    }
  }

  lemma RecordSize(ps: seq<seq<Byte>>, t: nat)
    requires AllSendable(ps) && t < |ps|
    ensures |Records(ps, t + 1)| == |Records(ps, t)| + 1 + |ps[t]| / 4
  {
    hide WordOf, Carry;
  }

  lemma NextPacketSlot(addr: nat, n: nat)
    ensures Slot(U32(addr + 4 * n + 4) % MEM_RX_BUF) == Cell(Slot(addr) + (n + 1))
  {
    SlotStep(addr, n + 1);
    MaskedSlot(U32(addr + 4 * n + 4));
  }

  lemma MaskedSlot(addr: nat)
    ensures Slot(addr % MEM_RX_BUF) == Slot(addr)
  {
    var q := addr / MEM_RX_BUF;
    assert addr == addr % MEM_RX_BUF + 4 * (q * RING);
    SlotAdd(addr % MEM_RX_BUF, q * RING);
    AddRings(Slot(addr % MEM_RX_BUF), q);
  }

  // Boundaries.

  /** Where a packet's words lie when its command has been carried out. */
  lemma PacketStored(s: HostState, p: seq<Byte>)
    requires s.Wf() && s.Idle() && |p| < 4 * RING
    ensures TxCommand(p).Wf()
    ensures var t := Meaning(s, TxCommand(p));
      && t.cells == WriteAll(s.cells, Slot(s.loadAddr), Record(p, s.part))
      && Slot(t.loadAddr) == Cell(Slot(s.loadAddr) + 1 + |p| / 4) && t.pktAddr == s.pktAddr
  {
    hide Slot, Cell, U32, WordOf, Value, WordsOf, RestOf;
    ValueOfWord(|p|);
    var ws := Record(p, s.part);
    var u := U32(s.loadAddr + 4);
    SlotStep(s.loadAddr, 1);
    CellOfSlot(s.loadAddr);
    SlotStep(u, |p| / 4);
    CellAdd(Slot(s.loadAddr) + 1, |p| / 4);
    assert ws[1..] == WordsOf(s.part, p);
    WriteAllCell(s.cells[Slot(s.loadAddr) := ws[0]], Slot(s.loadAddr) + 1, ws[1..]);
  }

  /**
   * A packet loaded where the packet pointer stands: after it has been sent, the transmitter stands where
   * the loader stands, exactly when its length fits the 8-bit field.  Whole words or not does not matter.
   */
  lemma BoundariesAgreeIff(s: HostState, p: seq<Byte>)
    requires s.Wf() && s.Idle() && |p| < 4 * RING && Slot(s.pktAddr) == Slot(s.loadAddr)
    ensures TxCommand(p).Wf()
    ensures var t := Meaning(s, TxCommand(p));
      Slot(AfterFrame(t).pktAddr) == Slot(t.loadAddr) <==> |p| < 256
  {
    hide Slot, Cell, U32, Record, WriteAll, Octet, ByteValue, ByteOf, WordOf, Meaning, TxCommand;
    PacketStored(s, p);
    var t, low := Meaning(s, TxCommand(p)), |p| % 256;
    RecordParts(p, s.part);
    WriteAllRead(s.cells, Slot(s.loadAddr), Record(p, s.part), 0);
    CellOfSlot(s.loadAddr);
    LowByte(|p|);
    NextPacketSlot(t.pktAddr, low / 4);
    SameStepIff(Slot(s.loadAddr), |p|);
  }

  lemma RecordParts(p: seq<Byte>, carry: Word)
    requires |p| < TWO32
    ensures |Record(p, carry)| == 1 + |p| / 4 && Record(p, carry)[0] == WordOf(|p|)
  {
    hide WordOf;
  }

  lemma SameStepIff(at: nat, n: nat)
    requires at < RING && n < 4 * RING
    ensures Cell(at + (n % 256 / 4 + 1)) == Cell(at + 1 + n / 4) <==> n < 256
  {}

  /** The shortest packet that is too long: the transmitter takes its length for zero. */
  lemma LongPacketLosesStep(s: HostState, p: seq<Byte>)
    requires s.Wf() && s.Idle() && Slot(s.pktAddr) == Slot(s.loadAddr) && |p| == 256
    ensures TxCommand(p).Wf()
    ensures Slot(AfterFrame(Meaning(s, TxCommand(p))).pktAddr) != Slot(Meaning(s, TxCommand(p)).loadAddr)
  {
    hide Meaning, AfterFrame, TxCommand, Slot;
    BoundariesAgreeIff(s, p);
  }

  /**
   * Five bytes, then four: the fifth byte is never stored with its packet, but is or-ed into the word of
   * the next one, which is not what the host sent.
   */
  lemma RestDamagesNext(s: HostState)
    requires s.Wf() && s.Idle() && s.part == 0
    ensures var p, q: seq<Byte> := [1, 2, 3, 4, 0xff], [0, 0, 0, 0];
      && TxCommand(p).Wf() && TxCommand(q).Wf()
      && Feed(s, EncodeAll([TxCommand(p), TxCommand(q)])).cells[Cell(Slot(s.loadAddr) + 3)] == 0xff
  {
    hide Slot, Cell, WriteAll, Meaning, TxCommand, Record, Feed, HostState.Wf, Item.Wf;
    var p, q: seq<Byte> := [1, 2, 3, 4, 0xff], [0, 0, 0, 0];
    PacketStored(s, p);
    var t := Meaning(s, TxCommand(p));
    PartAfter(s, p);
    PacketStored(t, q);
    TwoItems(s, TxCommand(p), TxCommand(q));
    CellAdd(Slot(s.loadAddr) + 2, 1);
    CellOfSlot(t.loadAddr);
    SecondRecord(q);
    CellCount(t);
    WriteAllRead(t.cells, Slot(t.loadAddr), Record(q, 0xff), 1);
  }

  /** Two packets loaded one after the other lie behind each other. */
  lemma TwoStored(s: HostState, p: seq<Byte>, q: seq<Byte>)
    requires s.Wf() && s.Idle() && |p| < 256 && |q| < 256
    ensures TxCommand(p).Wf() && TxCommand(q).Wf()
    ensures var t := Feed(s, EncodeAll([TxCommand(p), TxCommand(q)]));
      && t.pktAddr == s.pktAddr
      && t.cells == WriteAll(s.cells, Slot(s.loadAddr), Record(p, s.part) + Record(q, Meaning(s, TxCommand(p)).part))
  {
    hide Slot, Cell, WriteAll, Meaning, TxCommand, Record, Feed, HostState.Wf, Item.Wf;
    PacketStored(s, p);
    var t := Meaning(s, TxCommand(p));
    PacketStored(t, q);
    TwoItems(s, TxCommand(p), TxCommand(q));
    RecordParts(p, s.part);
    CellCount(s);
    var a, b := Record(p, s.part), Record(q, t.part);
    CellCount(t);
    assert Slot(t.loadAddr) == Cell(Slot(s.loadAddr) + |a|);
    WriteAllCell(t.cells, Slot(s.loadAddr) + |a|, b);
    WriteAllAppend(s.cells, Slot(s.loadAddr), a, b);
  }

  /**
   * Five bytes, then four: the frame sent for the first packet ends in the second one's length, and its
   * fifth byte comes out as 4.
   */
  lemma LastByteLost(s: HostState, info: HeaderInfo)
    requires s.Wf() && s.Idle() && s.part == 0 && Slot(s.pktAddr) == Slot(s.loadAddr)
    ensures var p, q: seq<Byte> := [1, 2, 3, 4, 0xff], [0, 0, 0, 0];
      && TxCommand(p).Wf() && TxCommand(q).Wf()
      && var f := SentFrame(Feed(s, EncodeAll([TxCommand(p), TxCommand(q)])), info);
         |f.payload| == 2 && f.payload[1] == WordOf(4) && Unpack(f.payload)[4] == 4
  {
    hide Slot, Cell, WriteAll, Meaning, TxCommand, Record, Feed, HostState.Wf, Item.Wf, WordOf, Octet, HeaderWord, ByteOf, ByteValue;
    var p, q: seq<Byte> := [1, 2, 3, 4, 0xff], [0, 0, 0, 0];
    TwoStored(s, p, q);
    var t, at := Feed(s, EncodeAll([TxCommand(p), TxCommand(q)])), Slot(s.loadAddr);
    var ws := Record(p, 0) + Record(q, Meaning(s, TxCommand(p)).part);
    RecordParts(p, 0);
    RecordParts(q, Meaning(s, TxCommand(p)).part);
    CellCount(s);
    WriteAllRead(s.cells, at, ws, 0);
    WriteAllRead(s.cells, at, ws, 2);
    CellOfSlot(s.loadAddr);
    LengthByte(5);
    LengthByte(4);
    FourIs();
    assert AirWords(5) == 2;
  }

  lemma FourIs()
    ensures ByteOf(4) == 4
  {}

  lemma CellCount(s: HostState)
    requires s.Wf()
    ensures |s.cells| == RING
  {}

  lemma SecondRecord(q: seq<Byte>)
    requires q == [0, 0, 0, 0]
    ensures |Record(q, 0xff)| == 2 && Record(q, 0xff)[1] == 0xff
  {
    hide WordOf;
    assert WordsOf(0xff, q)[0] == 0xff;
  }

  lemma PartAfter(s: HostState, p: seq<Byte>)
    requires s.Wf() && s.Idle() && s.part == 0 && p == [1, 2, 3, 4, 0xff]
    ensures TxCommand(p).Wf() && Meaning(s, TxCommand(p)).part == 0xff
  {
    hide WordOf, Value, Slot, U32, WriteAll;
    ValueOfWord(|p|);
    assert p[4..] == [0xff];
    assert RestOf(0, p) == RestOf(0, p[4..]) == 0xff;
  }

  lemma TwoItems(s: HostState, a: Item, b: Item)
    requires s.Wf() && s.Idle() && a.Wf() && b.Wf()
    ensures Feed(s, EncodeAll([a, b])) == Meaning(Meaning(s, a), b)
  {
    hide Meaning, Encode, Feed, Item.Wf, HostState.Wf, HostState.Idle;
    assert [a, b][1..] == [b] && [b][1..] == [];
    FeedScript(s, [a, b]);
    assert MeaningAll(s, [a, b]) == MeaningAll(Meaning(s, a), [b]) == MeaningAll(Meaning(Meaning(s, a), b), []);
  }

  /**
   * The load address is never wrapped: in memory that decoded plain 32M addresses, a load from address 0
   * would go on in the transmit half exactly in every other 16M.
   */
  lemma LoaderInHalfIff(s: HostState, payload: seq<Byte>)
    requires s.Wf() && s.loading == |payload| && s.index == 0 && s.loadAddr == 0
    ensures Feed(s, payload).loadAddr % MEM_SIZE < MEM_RX_BUF <==> |payload| / 4 / RING % 2 == 0
  {
    hide Feed, Loaded, U32;
    FeedPayload(s, payload);
    LoadedAddr(s, payload);
    HalfOfWords(|payload| / 4);
  }

  lemma HalfOfWords(n: nat)
    ensures U32(4 * n) % MEM_SIZE < MEM_RX_BUF <==> n / RING % 2 == 0
  {
    hide U32;
    var q, r := n / RING, n % RING;
    var h, p := q / 2, q % 2;
    assert n == q * RING + r && q == 2 * h + p;
    assert 4 * n == MEM_RX_BUF * p + 4 * r + h * MEM_SIZE;
    ModOfU32(4 * n);
    ModMultiple(MEM_RX_BUF * p + 4 * r, -h);
    BelowHalf(p, r);
  }

  lemma LoadedAddr(s: HostState, payload: seq<Byte>)
    requires s.Wf() && s.loading == |payload| && s.loadAddr == 0
    ensures Loaded(s, payload).loadAddr == U32(4 * (|payload| / 4))
  {}

  lemma BelowHalf(p: nat, r: nat)
    requires p < 2 && r < RING
    ensures (MEM_RX_BUF * p + 4 * r) % MEM_SIZE < MEM_RX_BUF <==> p == 0
  {}
}
