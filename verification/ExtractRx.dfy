/** The receive ring of src/extract_rx.c. */
module ExtractRx {
  import opened Words
  import opened Crc8
  import opened Plcp
  import opened Ring
  import opened Memory
  import opened Scrambling

  const NO_MARKER: Word := 0xffff_ffff

  /** A received frame: its header word and its descrambled payload. */
  datatype Frame = Frame(header: Word, payload: seq<Word>)

  /** Bytes of a stored frame, its marker and header included. */
  function FrameBytes(f: Frame): nat {
    4 * (2 + |f.payload|)
  }

  function FrameImage(f: Frame): seq<Word>
    requires FrameBytes(f) < TWO32
  {
    [WordOf(FrameBytes(f)), f.header] + f.payload
  }

  predicate Storable(fs: seq<Frame>) {
    forall f | f in fs :: FrameBytes(f) < TWO32
  }

  /** Finished frames as they lie in the ring: each marker leads to the next frame. */
  function Flat(fs: seq<Frame>): (ws: seq<Word>)
    requires Storable(fs)
  {
    if fs == [] then [] else Flat(fs[..|fs| - 1]) + FrameImage(fs[|fs| - 1])
  }

  /** A frame under reception: a placeholder marker, then the words so far. */
  function OpenImage(open: seq<Word>): seq<Word> {
    if open == [] then [] else [NO_MARKER] + open
  }

  /**
   * What the ring means: the frames released by the reader, those it has still to read, the frame
   * under reception (header first), the reader's position in the stream of all words, and whether the
   * cached marker and header are those of the oldest unread frame.
   */
  datatype RxView = RxView(
    done: seq<Frame>, ready: seq<Frame>, open: seq<Word>, cursor: nat, cached: bool)
  {
    predicate Wf() {
      Storable(done) && Storable(ready) && (cached ==> ready != [])
    }

    /** Every word written to the ring so far. */
    function Written(): seq<Word>
      requires Wf()
    {
      Flat(done) + Flat(ready) + OpenImage(open)
    }

    /** No word from stream position `p` on has been overwritten. */
    predicate Intact(p: nat)
      requires Wf()
    {
      |Written()| - RING <= p
    }

    /** `w` is the reader's next word, if that has been written and not been overwritten. */
    predicate Gives(w: Word)
      requires Wf()
    {
      cursor < |Written()| && Intact(cursor) ==> w == Written()[cursor]
    }
  }

  function SeedBit(header: Word): bool {
    SeedField(header) != 0
  }

  /** The receive FIFO drained into the frame under reception; the first word of a frame is its header. */
  function Absorb(v: RxView, ws: seq<Word>): RxView {
    if ws == [] then v
    else if v.open == [] then v.(open := [ws[0]] + Scramble(SeedBit(ws[0]), 0, ws[1..]))
    else v.(open := v.open + Scramble(SeedBit(v.open[0]), |v.open| - 1, ws))
  }

  /** The end of a frame. */
  function Close(v: RxView): RxView {
    if v.open == [] then v
    else v.(ready := v.ready + [Frame(v.open[0], v.open[1..])], open := [])
  }

  // Interrupt batching.

  lemma AbsorbAppend(v: RxView, a: seq<Word>, b: seq<Word>)
    ensures Absorb(Absorb(v, a), b) == Absorb(v, a + b)
  {
    hide SeedBit, Scramble;
    if a == [] {
      assert a + b == b;
    } else if b == [] {
      assert a + b == a;
    } else if v.open == [] {
      var seed := SeedBit(a[0]);
      assert (a + b)[1..] == a[1..] + b;
      ScrambleAppend(seed, 0, a[1..], b);
    } else {
      ScrambleAppend(SeedBit(v.open[0]), |v.open| - 1, a, b);
    }
  }

  lemma AbsorbSplit(v: RxView, ws: seq<Word>)
    requires ws != []
    ensures Absorb(Absorb(v, ws[..1]), ws[1..]) == Absorb(v, ws)
    ensures |Absorb(v, ws[..1]).open| == |v.open| + 1
  {
    AbsorbAppend(v, ws[..1], ws[1..]);
    assert ws[..1] + ws[1..] == ws;
  }

  lemma AbsorbLength(v: RxView, ws: seq<Word>)
    ensures |Absorb(v, ws).open| == |v.open| + |ws|
  {}

  function Concat(batches: seq<seq<Word>>): seq<Word> {
    if batches == [] then [] else Concat(batches[..|batches| - 1]) + batches[|batches| - 1]
  }

  /** One data interrupt per batch. */
  function AbsorbAll(v: RxView, batches: seq<seq<Word>>): RxView {
    if batches == [] then v else Absorb(AbsorbAll(v, batches[..|batches| - 1]), batches[|batches| - 1])
  }

  /** However the words are split over data interrupts, the ring ends up as if read in one go. */
  lemma {:induction false} BatchingIrrelevant(v: RxView, batches: seq<seq<Word>>)
    ensures AbsorbAll(v, batches) == Absorb(v, Concat(batches))
  {
    if batches != [] {
      var n := |batches| - 1;
      BatchingIrrelevant(v, batches[..n]);
      AbsorbAppend(v, Concat(batches[..n]), batches[n]);
    }
  }

  /** A transmitted frame, scrambled with the seed its header names, is stored as it was sent. */
  lemma FrameDelivered(v: RxView, header: Word, payload: seq<Word>)
    requires v.open == []
    ensures Close(Absorb(v, [header] + Scramble(SeedBit(header), 0, payload)))
      == v.(ready := v.ready + [Frame(header, payload)])
  {
    ScrambleTwice(SeedBit(header), 0, payload);
    var ws := [header] + Scramble(SeedBit(header), 0, payload);
    assert ws[1..] == Scramble(SeedBit(header), 0, payload);
    assert Absorb(v, ws).open == [header] + payload;
    assert ([header] + payload)[1..] == payload;
  }

  /**
   * The words stored for a frame when a send comes in after `k` of its words: from there on the receiver reads
   * the stream that the sender has reseeded and has taken `m` words from.
   */
  function Interrupted(air: seq<Word>, seed: bool, k: nat, other: bool, m: nat): (ws: seq<Word>)
    requires k <= |air|
    ensures |ws| == |air|
  {
    Scramble(seed, 0, air[..k]) + Scramble(other, m, air[k..])
  }

  /** A send during reception spoils the frame, except where the two streams happen to agree. */
  lemma InterruptedIff(seed: bool, payload: seq<Word>, k: nat, other: bool, m: nat)
    requires k <= |payload|
    ensures Interrupted(Scramble(seed, 0, payload), seed, k, other, m) == payload
      <==> forall i | k <= i < |payload| :: STREAM(seed, i) == STREAM(other, m + (i - k))
  {
    hide Mix;
    var air := Scramble(seed, 0, payload);
    var ws := Interrupted(air, seed, k, other, m);
    forall i | 0 <= i < |payload|
      ensures i < k ==> ws[i] == payload[i]
      ensures i >= k ==> (ws[i] == payload[i] <==> STREAM(seed, i) == STREAM(other, m + (i - k)))
    {
      MixTwice(payload[i], STREAM(seed, i));
      if i >= k {
        assert ws[i] == Mix(air[k..][i - k], STREAM(other, m + (i - k)));
        MixSameIff(payload[i], STREAM(seed, i), STREAM(other, m + (i - k)));
      }
    }
  }

  lemma MixSameIff(w: Word, a: Word, b: Word)
    ensures Mix(Mix(w, a), b) == w <==> a == b
  {
    hide Mix;
    if a == b {
      MixTwice(w, a);
    } else {
      MixDiffers(w, a, b);
    }
  }

  lemma MixDiffers(w: Word, a: Word, b: Word)
    requires a != b
    ensures Mix(Mix(w, a), b) != w
  {}

  /** Patching the placeholder of the open frame turns it into a finished frame of the chain. */
  lemma CloseImage(v: RxView)
    requires v.Wf() && v.open != [] && 4 * (|v.open| + 1) < TWO32
    ensures var p := |Flat(v.done)| + |Flat(v.ready)|;
      && Close(v).Wf() && p < |v.Written()|
      && v.Written()[p := WordOf(4 * (|v.open| + 1))] == Close(v).Written()
  {
    hide WordOf, Flat, Close, RxView.Written;
    var f := Frame(v.open[0], v.open[1..]);
    CloseWritten(v, f);
    OpenWritten(v);
    Patched(Flat(v.done) + Flat(v.ready), NO_MARKER, v.open, WordOf(4 * (|v.open| + 1)));
  }

  lemma OpenWritten(v: RxView)
    requires v.Wf() && v.open != []
    ensures v.Written() == Flat(v.done) + Flat(v.ready) + ([NO_MARKER] + v.open)
  {
    hide Flat;
  }

  lemma CloseWritten(v: RxView, f: Frame)
    requires v.Wf() && v.open == [f.header] + f.payload && 4 * (|v.open| + 1) < TWO32
    ensures Close(v).Wf()
    ensures Close(v).Written() == Flat(v.done) + Flat(v.ready) + ([WordOf(4 * (|v.open| + 1))] + v.open)
  {
    hide WordOf, Flat, FrameImage;
    FlatSnoc(v.ready, f);
    ImageIs(f);
    assert v.open[1..] == f.payload;
    assert Close(v).ready == v.ready + [f];
  }

  lemma ImageIs(f: Frame)
    requires FrameBytes(f) < TWO32
    ensures FrameImage(f) == [WordOf(4 * (2 + |f.payload|))] + ([f.header] + f.payload)
  {
    hide WordOf;
  }

  lemma FlatSnoc(fs: seq<Frame>, f: Frame)
    requires Storable(fs) && FrameBytes(f) < TWO32
    ensures Storable(fs + [f]) && Flat(fs + [f]) == Flat(fs) + FrameImage(f)
  {
    hide FrameImage;
    assert (fs + [f])[..|fs|] == fs;
  }

  lemma Patched(a: seq<Word>, x: Word, b: seq<Word>, y: Word)
    ensures (a + ([x] + b))[|a| := y] == a + ([y] + b)
  {}

  /** A word absorbed into an open frame goes to the end of the stream. */
  lemma AbsorbImage(v: RxView, w: Word)
    requires v.Wf() && v.open != []
    ensures var x := Mix(w, STREAM(SeedBit(v.open[0]), |v.open| - 1));
      && Absorb(v, [w]) == v.(open := v.open + [x])
      && Absorb(v, [w]).Written() == v.Written() + [x]
  {
    hide SeedBit, Mix, Scramble, Flat;
    ScrambleOne(SeedBit(v.open[0]), |v.open| - 1, w);
  }

  /** The first frame of a chain lies first. */
  lemma {:induction false} FlatHead(fs: seq<Frame>)
    requires Storable(fs) && fs != []
    ensures Flat(fs) == FrameImage(fs[0]) + Flat(fs[1..])
  {
    hide FrameImage;
    var n := |fs| - 1;
    if n > 0 {
      FlatHead(fs[..n]);
      assert fs[..n][1..] == fs[1..][..n - 1];
    }
  }

  /** The reader moved on by one frame. */
  function Release(v: RxView): RxView
    requires v.ready != []
  {
    v.(done := v.done + [v.ready[0]], ready := v.ready[1..], cached := false)
  }

  /** Moving on changes no word of the stream and advances by the frame's own length. */
  lemma ReleaseImage(v: RxView)
    requires v.Wf() && v.ready != []
    ensures Release(v).Wf() && Release(v).Written() == v.Written()
    ensures |Flat(Release(v).done)| == |Flat(v.done)| + 2 + |v.ready[0].payload|
    ensures |Flat(Release(v).done)| + |Flat(Release(v).ready)| == |Flat(v.done)| + |Flat(v.ready)|
  {
    hide WordOf;
    FlatHead(v.ready);
    var d := Release(v).done;
    assert d[..|d| - 1] == v.done;
  }

  /** The oldest unread frame starts where the released ones end. */
  lemma HeadAt(v: RxView)
    requires v.Wf() && v.ready != []
    ensures var p, f := |Flat(v.done)|, v.ready[0];
      && p + 2 + |f.payload| <= |v.Written()|
      && v.Written()[p] == WordOf(FrameBytes(f)) && v.Written()[p + 1] == f.header
      && v.Written()[p + 2..p + 2 + |f.payload|] == f.payload
  {
    hide WordOf;
    FlatHead(v.ready);
  }

  /** What the cells at the oldest unread frame hold: its marker and header, or the placeholder. */
  lemma OldestFrame(cells: seq<Word>, v: RxView)
    requires v.Wf() && Window(cells, 0, v.Written()) && v.Intact(|Flat(v.done)|)
    requires v.ready != [] || v.open != []
    ensures var p := |Flat(v.done)|;
      if v.ready != []
        then cells[Cell(p)] == WordOf(FrameBytes(v.ready[0])) && cells[Cell(p + 1)] == v.ready[0].header
      else cells[Cell(p)] == NO_MARKER
  {
    hide Window, WordOf, Cell;
    var w, p := v.Written(), |Flat(v.done)|;
    if v.ready != [] {
      HeadAt(v);
      WindowRead(cells, 0, w, p + 1);
    }
    WindowRead(cells, 0, w, p);
  }

  lemma CursorImage(v: RxView, c: nat, k: bool)
    requires v.Wf() && (k ==> v.ready != [])
    ensures v.(cursor := c, cached := k).Wf() && v.(cursor := c, cached := k).Written() == v.Written()
  {}

  lemma MarkerValue(f: Frame)
    requires FrameBytes(f) < TWO32
    ensures Value(WordOf(FrameBytes(f))) == FrameBytes(f) && WordOf(FrameBytes(f)) != NO_MARKER
  {
    hide Value, WordOf;
    ValueOfWord(FrameBytes(f));
    NoMarkerValue();
  }

  lemma NoMarkerValue()
    ensures Value(NO_MARKER) == TWO32 - 1
  {}

  /** The address of stream position `n` as the reader computes it: counted up from the start, never wrapped. */
  function RxAddr(n: nat): nat {
    U32(MEM_RX_BUF + 4 * n)
  }

  lemma RxAddrSlot(n: nat)
    ensures Slot(RxAddr(n)) == Cell(n) && RxAddr(n) % 4 == 0 && RxAddr(n) < TWO32
  {
    SlotStep(MEM_RX_BUF, n);
  }

  /** Adding a frame's marker to the frame's address gives the next frame's address, modulo 2^32. */
  lemma NextFrameAddr(at: nat, f: Frame)
    requires FrameBytes(f) < TWO32
    ensures U32(RxAddr(at) + Value(WordOf(FrameBytes(f)))) == RxAddr(at + 2 + |f.payload|)
  {
    hide WordOf, Value;
    MarkerValue(f);
  }

  /**
   * Memory that decoded plain 32M addresses, instead of 16M within the receive half, would give the
   * reader its frames exactly in every other 16M of received data: the address is never wrapped.
   */
  lemma PlainDecodingIff(n: nat)
    ensures MEM_RX_BUF <= RxAddr(n) % MEM_SIZE <==> n / RING % 2 == 0
  {
    var q, r := n / RING, n % RING;
    var h, p := q / 2, q % 2;
    assert n == q * RING + r && q == 2 * h + p;
    assert MEM_RX_BUF + 4 * n == MEM_RX_BUF * (1 + p) + 4 * r + h * MEM_SIZE;
    ModOfU32(MEM_RX_BUF + 4 * n);
    ModMultiple(MEM_RX_BUF * (1 + p) + 4 * r, -h);
    InHalf(p, r);
  }

  /** After 16M of received data the reader would look into the transmit half. */
  lemma PlainDecodingFails()
    ensures RxAddr(RING) % MEM_SIZE == 0
  {}

  lemma SeedBitIs(header: Word)
    ensures SeedBit(header) == (SeedField(header) != 0)
  {}

  /** The first word of a frame: a placeholder marker and the header go to the end of the stream. */
  lemma StartImage(v: RxView, header: Word)
    requires v.Wf() && v.open == []
    ensures Absorb(v, [header]) == v.(open := [header])
    ensures v.(open := [header]).Written() == v.Written() + [NO_MARKER, header]
  {}

  class RxPath {
    const bank: Bank
    const scrambler: Scrambler

    /** The words waiting in the receive FIFO: IRQ_RX_DATA_READY is set while there are any. */
    var fifo: seq<Word>

    var rdBufAddr: nat
    var wrBufAddr: nat
    var wrBytes: nat
    var packetReady: int
    var rdPacketAddr: nat
    var wrPacketAddr: nat
    var rdPacketHeader: Word
    var rdPacketMarker: Word
    var reading: bool

    ghost var view: RxView

    /** The reader's pointers point, modulo 16M, at the oldest unread frame and at the next word to read. */
    ghost predicate ReaderOk(done: seq<Frame>, ready: seq<Frame>, cursor: nat, cached: bool)
      requires Storable(done) && Storable(ready) && (cached ==> ready != [])
      reads this`rdPacketAddr, this`rdBufAddr, this`packetReady, this`rdPacketMarker, this`rdPacketHeader
    {
      && rdPacketAddr == RxAddr(|Flat(done)|)
      && rdBufAddr < TWO32 && rdBufAddr % 4 == 0
      && Slot(rdBufAddr) == Cell(cursor)
      && packetReady == |ready|
      && (cached ==> rdPacketMarker == WordOf(FrameBytes(ready[0])) && rdPacketHeader == ready[0].header)
    }

    /**
     * Memory holds the stream `w`, the write pointer stands at its end, and a frame is under reception
     * exactly when `open` has words; its marker is at stream position `at`.
     */
    ghost predicate RingOk(w: seq<Word>, at: nat, open: seq<Word>)
      reads this`wrBufAddr, this`wrBytes, this`wrPacketAddr, this`reading, bank`cells, scrambler
    {
      && Window(bank.cells, 0, w)
      && MEM_RX_BUF <= wrBufAddr < MEM_SIZE && wrBufAddr % 4 == 0
      && Slot(wrBufAddr) == Cell(|w|)
      && reading == (open != [])
      && wrBytes == (if reading then 4 * (|open| + 1) else 0)
      && (reading ==>
            && Slot(wrPacketAddr) == Cell(at)
            && scrambler.seed == SeedBit(open[0]) && scrambler.pos == |open| - 1)
    }

    /** The chain of frames in memory and the agreement of all pointers with it. */
    ghost predicate Valid()
      reads this, bank, scrambler
    {
      && bank.Valid() && view.Wf()
      && ReaderOk(view.done, view.ready, view.cursor, view.cached)
      && RingOk(view.Written(), |Flat(view.done)| + |Flat(view.ready)|, view.open)
    }

    /** The frame under reception is shorter than the ring. */
    ghost predicate FrameFits()
      reads this
    {
      |view.open| + |fifo| + 1 <= RING
    }

    constructor (bank: Bank, scrambler: Scrambler)
      requires bank.Valid()
      ensures Valid() && this.bank == bank && this.scrambler == scrambler
      ensures view == RxView([], [], [], 0, false) && fifo == []
    {
      this.bank, this.scrambler := bank, scrambler;
      fifo := [];
      rdBufAddr, wrBufAddr, rdPacketAddr, wrPacketAddr := MEM_RX_BUF, MEM_RX_BUF, MEM_RX_BUF, 0;
      wrBytes, packetReady, rdPacketHeader, rdPacketMarker, reading := 0, 0, 0, 0, false;
      view := RxView([], [], [], 0, false);
    }

    /** Between frames the scrambler may be used by the transmitter. */
    twostate lemma SeedOfOthers()
      requires old(Valid()) && unchanged(this, bank) && view.open == []
      ensures Valid()
    {
      hide RxView.Wf, RxView.Written, ReaderOk, Window, Slot, Cell, Flat;
    }

    method IncRdBuf()
      modifies this`rdBufAddr
      ensures rdBufAddr == NextRxAddr(old(rdBufAddr))
    {
      rdBufAddr := U32(rdBufAddr + 4);
      if rdBufAddr == MEM_SIZE {
        rdBufAddr := MEM_RX_BUF;
      }
    }

    method IncWrBuf()
      modifies this`wrBufAddr
      ensures wrBufAddr == NextRxAddr(old(wrBufAddr))
    {
      wrBufAddr := U32(wrBufAddr + 4);
      if wrBufAddr == MEM_SIZE {
        wrBufAddr := MEM_RX_BUF;
      }
    }

    /** The software write pointer and the hardware's both stand at the end of the stream `w`. */
    ghost predicate WriterAt(w: seq<Word>)
      reads this`wrBufAddr, bank
    {
      && bank.Valid() && Window(bank.cells, 0, w)
      && MEM_RX_BUF <= wrBufAddr < MEM_SIZE && wrBufAddr % 4 == 0
      && bank.wr == Slot(wrBufAddr) == Cell(|w|)
    }

    /** One word into the ring: the hardware pointer steps by itself, the software pointer with it. */
    method Put(ghost w: seq<Word>, val: Word)
      requires WriterAt(w)
      modifies this`wrBufAddr, bank
      ensures WriterAt(w + [val])
    {
      hide Slot, Cell, Window, NextRxAddr;
      CellAdd(|w|, 1);
      NextRxSlot(wrBufAddr);
      WindowAppend(bank.cells, 0, w, val);
      bank.Write(val);
      IncWrBuf();
    }

    /** Placeholder marker and header go into the ring. */
    method PutHeader(ghost w: seq<Word>, val: Word)
      requires WriterAt(w)
      modifies this`wrBufAddr, bank
      ensures WriterAt(w + [NO_MARKER, val])
    {
      hide WriterAt;
      Put(w, NO_MARKER);
      Put(w + [NO_MARKER], val);
      assert w + [NO_MARKER] + [val] == w + [NO_MARKER, val];
    }

    /** The first word of a frame: placeholder marker, header, and the scrambler reseeded from it. */
    method StartFrame()
      requires Valid() && !reading && fifo != [] && FrameFits() && WriterAt(view.Written())
      modifies this, bank, scrambler
      ensures Valid() && WriterAt(view.Written())
      ensures fifo == old(fifo)[1..] && view == Absorb(old(view), old(fifo)[..1])
    {
      hide SeedField, SeedBit, Flat, Slot, Cell, Window, ReaderOk, Absorb, Storable, FrameImage;
      var val := fifo[0];
      StartImage(view, val);
      assert fifo[..1] == [val];
      wrPacketAddr := wrBufAddr;
      fifo := fifo[1..];
      PutHeader(view.Written(), val);
      scrambler.Reseed(SeedField(val));
      SeedBitIs(val);
      reading := true;
      wrBytes := wrBytes + 8;
      view := view.(open := [val]);
    }

    /** One turn of the draining loop. */
    method StoreWord()
      requires Valid() && reading && fifo != [] && WriterAt(view.Written())
      modifies this, bank, scrambler
      ensures Valid() && WriterAt(view.Written())
      ensures fifo == old(fifo)[1..] && view == Absorb(old(view), old(fifo)[..1])
    {
      hide SeedBit, Flat, Mix, Absorb, Slot, Cell, Window, ReaderOk, Storable, FrameImage;
      var val := fifo[0];
      AbsorbImage(view, val);
      assert fifo[..1] == [val];
      fifo := fifo[1..];
      var key := scrambler.Read();
      Put(view.Written(), Mix(val, key));
      wrBytes := wrBytes + 4;
      view := Absorb(view, [val]);
    }

    method RxDataInt()
      requires Valid() && FrameFits()
      modifies this, bank, scrambler
      ensures Valid()
      ensures fifo == [] && view == Absorb(old(view), old(fifo))
    {
      hide SeedBit, Flat, Window, Slot, Cell, ReaderOk, Scramble;
      bank.SetWr(wrBufAddr);
      if !reading && fifo != [] {
        AbsorbSplit(view, fifo);
        StartFrame();
      }
      while fifo != []
        invariant Valid() && WriterAt(view.Written())
        invariant fifo != [] ==> reading
        invariant |view.open| + |fifo| <= RING
        invariant Absorb(view, fifo) == Absorb(old(view), old(fifo))
        decreases |fifo|
      {
        AbsorbSplit(view, fifo);
        StoreWord();
      }
    }

    /** The end of a frame: the placeholder becomes the byte count. */
    method CloseFrame()
      requires Valid() && reading && |view.open| + 1 <= RING
      modifies this, bank
      ensures Valid() && fifo == old(fifo) && view == Close(old(view))
    {
      hide SeedBit, Flat, Slot, Cell, Window, Storable, WordOf;
      CloseImage(view);
      WindowPatch(bank.cells, 0, view.Written(), |Flat(view.done)| + |Flat(view.ready)|, WordOf(wrBytes));
      bank.SetWr(wrPacketAddr);
      bank.Write(WordOf(wrBytes));
      reading := false;
      packetReady := packetReady + 1;
      wrBytes := 0;
      view := Close(view);
    }

    method RxReadyInt()
      requires Valid() && FrameFits()
      modifies this, bank, scrambler
      ensures Valid()
      ensures fifo == [] && view == Close(Absorb(old(view), old(fifo)))
    {
      hide Flat, Window, ReaderOk, Scramble, RxView.Written;
      AbsorbLength(view, fifo);
      if fifo != [] {
        // what is left of the frame
        RxDataInt();
      }
      if wrBytes != 0 {
        CloseFrame();
      }
    }

    lemma RingWindow()
      requires Valid()
      ensures Window(bank.cells, 0, view.Written())
    {
      hide Window, RxView.Written, ReaderOk, Flat, Cell, Slot;
    }

    /** The two words at the packet pointer. */
    method ReadHeaders()
      requires bank.Valid()
      modifies this`rdPacketMarker, this`rdPacketHeader, bank`rd
      ensures bank.Valid() && rdPacketMarker == bank.cells[Slot(rdPacketAddr)]
      ensures rdPacketHeader == bank.cells[Cell(Slot(rdPacketAddr) + 1)]
    {
      bank.SetRd(rdPacketAddr);
      rdPacketMarker := bank.Read();
      rdPacketHeader := bank.Read();
    }

    /** Caches marker and header of the oldest unread frame and points the reader at it. */
    method RxPacketReady() returns (ready: int)
      requires Valid()
      requires view.ready != [] || view.open != [] ==> view.Intact(|Flat(view.done)|)
      modifies this`rdPacketMarker, this`rdPacketHeader, this`rdBufAddr, this`view, bank`rd
      ensures Valid() && ready == |view.ready|
      ensures view == old(view).(cursor := |Flat(old(view).done)|, cached := view.ready != [])
      ensures view.cached ==> rdPacketHeader == view.ready[0].header
      ensures view.ready == [] && view.open != [] ==> rdPacketMarker == NO_MARKER
    {
      hide Flat, Slot, Cell, Window, WordOf, FrameImage, Storable, RxAddr, RxView.Written, RxView.Intact, RingOk;
      ghost var p := |Flat(view.done)|;
      CellAdd(p, 1);
      RxAddrSlot(p);
      if view.ready != [] || view.open != [] {
        RingWindow();
        OldestFrame(bank.cells, view);
      }
      CursorImage(view, p, view.ready != []);
      ReadHeaders();
      rdBufAddr := rdPacketAddr;
      ready := packetReady;
      view := view.(cursor := p, cached := view.ready != []);
    }

    method RxPacketLength() returns (n: Byte)
      ensures n == LengthField(rdPacketHeader)
    {
      n := LengthField(rdPacketHeader);
    }

    /** The payload bytes that the cached marker counts. */
    method RxBytesRead() returns (n: nat)
      requires Valid()
      ensures view.cached ==> n == 4 * |view.ready[0].payload|
    {
      hide Value, WordOf, Flat, Slot, Cell, Window;
      n := U32(Value(rdPacketMarker) - 8);
      if view.cached {
        MarkerValue(view.ready[0]);
      }
    }

    method RxCheckCrcOk() returns (ok: bool)
      ensures ok == CrcOk(rdPacketHeader)
    {
      hide Octet, Update;
      CrcOfFour(Octet(rdPacketHeader, 0), Octet(rdPacketHeader, 1), Octet(rdPacketHeader, 2), Octet(rdPacketHeader, 3));
      var crc := CRC8_INIT;
      crc := Crc8Update(crc, Octet(rdPacketHeader, 0));
      crc := Crc8Update(crc, Octet(rdPacketHeader, 1));
      crc := Crc8Update(crc, Octet(rdPacketHeader, 2));
      crc := Crc8Update(crc, Octet(rdPacketHeader, 3));
      ok := crc == 0;
    }

    /** The next word for the reader, if it has been written and not overwritten. */
    method RxRead() returns (w: Word)
      requires Valid()
      modifies this`rdBufAddr, this`view, bank`rd
      ensures Valid() && view == old(view).(cursor := old(view).cursor + 1)
      ensures old(view).Gives(w)
    {
      hide Flat, Slot, Cell, Window, WordOf, Storable, NextRxAddr;
      ghost var c := view.cursor;
      if c < |view.Written()| && view.Intact(c) {
        WindowRead(bank.cells, 0, view.Written(), c);
      }
      NextRxSlot(rdBufAddr);
      CellAdd(c, 1);
      bank.SetRd(rdBufAddr);
      IncRdBuf();
      w := bank.Read();
      view := view.(cursor := c + 1);
    }

    /** Moves to the next frame; the cached marker must be that of the frame at hand, or the placeholder. */
    method RxPacketNext()
      requires Valid() && (view.cached || rdPacketMarker == NO_MARKER)
      modifies this`rdPacketAddr, this`packetReady, this`view
      ensures Valid()
      ensures view == if old(view).cached then Release(old(view)) else old(view)
    {
      hide Flat, Slot, Cell, Window, WordOf, Value, U32, RxAddr, RxView.Written, RingOk, FrameImage;
      if view.cached {
        MarkerValue(view.ready[0]);
      }
      if rdPacketMarker == NO_MARKER {
        return;
      }
      NextFrameAddr(|Flat(view.done)|, view.ready[0]);
      rdPacketAddr := U32(rdPacketAddr + Value(rdPacketMarker));
      packetReady := packetReady - 1;
      ReleaseImage(view);
      view := Release(view);
    }
  }
}
