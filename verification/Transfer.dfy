/** Loading memory and dumping it again, through src/spi.c in both directions. */
module Transfer {
  import opened Words
  import opened Ring
  import opened HostPort
  import opened SpiData

  lemma PlacedOctets(b0: Byte, b1: Byte, b2: Byte, b3: Byte)
    ensures var w := Place(Place(Place(Place(0, b0, 0), b1, 1), b2, 2), b3, 3);
      Octet(w, 0) == b0 && Octet(w, 1) == b1 && Octet(w, 2) == b2 && Octet(w, 3) == b3
  {}

  /** Loaded bytes come back from the words they fill. */
  lemma {:induction false} UnpackWordsOf(bytes: seq<Byte>)
    ensures Unpack(WordsOf(0, bytes)) == bytes[..4 * (|bytes| / 4)]
    decreases |bytes|
  {
    hide Place, Octet, Unpack;
    if |bytes| >= 4 {
      var tail := bytes[4..];
      UnpackWordsOf(tail);
      var w := WordsOf(0, bytes)[0];
      UnpackAppend([w], WordsOf(0, tail));
      FirstWord(bytes);
      assert bytes[..4] + tail[..4 * (|tail| / 4)] == bytes[..4 * (|bytes| / 4)];
    } else {
      UnpackNone();
    }
  }

  lemma UnpackNone()
    ensures Unpack([]) == []
  {}

  lemma UnpackOne(w: Word)
    ensures Unpack([w]) == [Octet(w, 0), Octet(w, 1), Octet(w, 2), Octet(w, 3)]
  {
    hide Octet;
  }

  lemma FirstIs(bytes: seq<Byte>)
    requires |bytes| >= 4
    ensures WordsOf(0, bytes)[0] == Place(Place(Place(Place(0, bytes[0], 0), bytes[1], 1), bytes[2], 2), bytes[3], 3)
  {
    hide Place;
  }

  lemma FourBytes(bytes: seq<Byte>)
    requires |bytes| >= 4
    ensures bytes[..4] == [bytes[0], bytes[1], bytes[2], bytes[3]]
  {}

  lemma FirstWord(bytes: seq<Byte>)
    requires |bytes| >= 4
    ensures Unpack([WordsOf(0, bytes)[0]]) == bytes[..4]
  {
    hide Place, Octet, Unpack, WordsOf;
    FirstIs(bytes);
    FourBytes(bytes);
    PlacedOctets(bytes[0], bytes[1], bytes[2], bytes[3]);
    UnpackOne(WordsOf(0, bytes)[0]);
  }

  lemma UnpackWhole(bytes: seq<Byte>)
    requires |bytes| % 4 == 0
    ensures Unpack(WordsOf(0, bytes)) == bytes
  {
    hide Unpack, WordsOf;
    UnpackWordsOf(bytes);
    assert 4 * (|bytes| / 4) == |bytes|;
  }

  lemma PlacedCarry(part: Word, b0: Byte, b1: Byte, b2: Byte, b3: Byte)
    ensures Place(Place(Place(Place(part, b0, 0), b1, 1), b2, 2), b3, 3)
      == Place(Place(Place(Place(0, b0, 0), b1, 1), b2, 2), b3, 3) | part
  {}

  /** Whether a left-over part word sets no bit that a word lacks. */
  predicate Covered(part: Word, w: Word) {
    part & w == part
  }

  lemma AndAbsorbs(part: Word, w: Word)
    ensures part & (w | part) == part
  {}

  lemma OrAbsorbs(part: Word, w: Word)
    ensures w | (part & w) == w
  {}

  lemma CoveredIff(part: Word, w: Word)
    ensures w | part == w <==> Covered(part, w)
  {
    if w | part == w {
      AndAbsorbs(part, w);
    } else if Covered(part, w) {
      OrAbsorbs(part, w);
    }
  }

  /**
   * What an earlier load of a length that is not a multiple of four left behind is or-ed into the next
   * load: its words are the host's exactly when the left-over bits are all set in the first of them.
   */
  lemma CarryHarmlessIff(part: Word, bytes: seq<Byte>)
    requires |bytes| >= 4
    ensures WordsOf(part, bytes) == WordsOf(0, bytes) <==> Covered(part, WordsOf(0, bytes)[0])
  {
    hide Place, Covered;
    var v, w := WordsOf(part, bytes), WordsOf(0, bytes);
    PlacedCarry(part, bytes[0], bytes[1], bytes[2], bytes[3]);
    CoveredIff(part, w[0]);
    assert v[1..] == w[1..];
    assert v == [v[0]] + v[1..] && w == [w[0]] + w[1..];
  }

  /** A load of whole words leaves nothing behind. */
  lemma {:induction false} NothingLeft(part: Word, bytes: seq<Byte>)
    requires |bytes| % 4 == 0 && (bytes == [] ==> part == 0)
    ensures RestOf(part, bytes) == 0
    decreases |bytes|
  {
    hide Place;
    if |bytes| >= 4 {
      NothingLeft(0, bytes[4..]);
    }
  }

  /** The `n` words from address `start` on. */
  function WordsAt(cells: seq<Word>, start: nat, n: nat): (ws: seq<Word>)
    requires |cells| == RING
    ensures |ws| == n
  {
    seq(n, i requires 0 <= i < n => cells[Slot(U32(start + 4 * i))])
  }

  /** The words of a load, seen through the addresses of a dump that starts at the same place. */
  lemma LoadedWords(s: HostState, payload: seq<Byte>)
    requires s.Wf() && s.loading == |payload| <= 4 * RING
    ensures WordsAt(Loaded(s, payload).cells, s.loadAddr, |payload| / 4) == WordsOf(s.part, payload)
  {
    hide Place, Slot, Cell, RestOf, WordsOf, WriteAll, U32;
    var ws := WordsOf(s.part, payload);
    forall i | 0 <= i < |ws|
      ensures Loaded(s, payload).cells[Slot(U32(s.loadAddr + 4 * i))] == ws[i]
    {
      WriteAllRead(s.cells, Slot(s.loadAddr), ws, i);
      SlotStep(s.loadAddr, i);
    }
  }

  /** A dump of `count` bytes from memory that has just been started. */
  predicate Started(o: OutState, count: nat, addr: nat) {
    o.index == 0 && o.dumped == [] && o.grabbed == [] && o.todo == count && o.addr == addr < TWO32 && !o.fromRx
  }

  lemma StartedWf(o: OutState, count: nat, addr: nat)
    requires Started(o, count, addr)
    ensures o.Wf() && o.addr == U32(addr + 4 * (|o.dumped| / 4))
  {}
}
