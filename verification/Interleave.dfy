/**
 * Control and data interrupts in any order on one memory (src/spi.c, src/main.c): a dump is not disturbed by
 * commands that leave it alone, and exactly which commands those are.
 */
module Interleave {
  import opened Words
  import opened Crc8
  import opened Ring
  import opened FlashDevice
  import opened FlashDriver
  import opened HostProtocol
  import opened HostPort
  import opened SpiData
  import opened DataPort
  import opened MainLoop
  import opened Transfer
  import opened Control

  datatype Happening =
    | Control(byte: Byte, answer: Word)
    | Data
    | NewAck(bytes: seq<Byte>)
    | NewReply(bytes: seq<Byte>)

  function Turn(m: Both, h: Happening): (r: Both)
    requires m.Wf()
    ensures r.Wf()
  {
    match h
    case Control(b, answer) => ControlTurn(m, b, answer)
    case Data => DataTurn(m)
    case NewAck(bytes) => m.(out := m.out.(ack := bytes))
    case NewReply(bytes) => m.(out := m.out.(reply := bytes))
  }

  function RunBoth(m: Both, hs: seq<Happening>): (r: Both)
    requires m.Wf()
    ensures r.Wf()
    decreases |hs|
  {
    if hs == [] then m else RunBoth(Turn(m, hs[0]), hs[1..])
  }

  function ControlBytes(hs: seq<Happening>): seq<Byte> {
    if hs == [] then []
    else (if hs[0].Control? then [hs[0].byte] else []) + ControlBytes(hs[1..])
  }

  /** Whatever the data side does, the loader's state is what its bytes alone make it. */
  lemma {:induction false} LoaderAlone(m: Both, hs: seq<Happening>)
    requires m.Wf()
    ensures RunBoth(m, hs).host == Feed(m.host, ControlBytes(hs))
    decreases |hs|
  {
    hide Feed, Turn, Both.Wf, HostState.Wf;
    HostIsWf(m);
    if hs == [] {
      FeedNothing(m.host);
    } else {
      var t := Turn(m, hs[0]);
      TurnHost(m, hs[0]);
      LoaderAlone(t, hs[1..]);
      if hs[0].Control? {
        FeedFirst(m.host, hs[0].byte, ControlBytes(hs[1..]));
      } else {
        assert [] + ControlBytes(hs[1..]) == ControlBytes(hs[1..]);
      }
    }
  }

  lemma HostIsWf(m: Both)
    requires m.Wf()
    ensures m.host.Wf() && m.out.Wf() && |m.host.cells| == RING
  {}

  lemma TurnHost(m: Both, h: Happening)
    requires m.Wf()
    ensures m.host.Wf() && Turn(m, h).host == if h.Control? then CtrlByte(m.host, h.byte) else m.host
  {
    hide CtrlByte, Completed, Obey;
  }

  lemma FeedFirst(s: HostState, b: Byte, rest: seq<Byte>)
    requires s.Wf()
    ensures Feed(s, [b] + rest) == Feed(CtrlByte(s, b), rest)
  {
    hide CtrlByte;
    assert ([b] + rest)[1..] == rest;
  }

  // What a control byte stores.

  const FLASH_WORDS: nat := 0x2_0000

  /** Where the words of a command go, and how many are stored when it is carried out. */
  function StartOf(loadAddr: nat, cmd: Byte): nat {
    if IsLoad(cmd) then Slot(loadAddr) else 0
  }

  function StoredAtOnce(cmd: Byte): nat {
    if cmd == P.txPacket then 1
    else if cmd == P.memTest then RING
    else if cmd == P.flashRead then FLASH_WORDS
    else 0
  }

  function StoreStart(s: HostState, b: Byte): nat
    requires s.Wf()
  {
    match Completed(s, b)
    case None => Slot(s.loadAddr)
    case Some(c) => StartOf(s.loadAddr, c.0)
  }

  function StoreWords(s: HostState, b: Byte): nat
    requires s.Wf()
  {
    match Completed(s, b)
    case None => if s.loading > 0 && s.index == 3 then 1 else 0
    case Some(c) => StoredAtOnce(c.0)
  }

  /** The words that a command and its payload store. */
  function StoredWords(part: Word, flash: seq<Byte>, cmd: Byte, arg: Word, payload: seq<Byte>): seq<Word>
    requires |flash| == FLASH_SIZE
  {
    if cmd == P.txPacket then [arg] + WordsOf(part, payload)
    else if cmd == P.memLoad then WordsOf(part, payload)
    else if cmd == P.memTest then TestPattern()
    else if cmd == P.flashRead then Pack(ReadBack(flash, 0, FLASH_SIZE))
    else []
  }

  function ItemWords(cmd: Byte, payload: seq<Byte>): nat {
    if cmd == P.txPacket then 1 + |payload| / 4
    else if cmd == P.memLoad then |payload| / 4
    else StoredAtOnce(cmd)
  }

  lemma StoredLength(part: Word, flash: seq<Byte>, cmd: Byte, arg: Word, payload: seq<Byte>)
    requires |flash| == FLASH_SIZE
    ensures |StoredWords(part, flash, cmd, arg, payload)| == ItemWords(cmd, payload)
  {
    hide WordsOf, ReadBack;
  }

  /** A memory test writes every word. */
  lemma PatternIsWritten(cells: seq<Word>)
    requires |cells| == RING
    ensures WriteAll(cells, 0, TestPattern()) == TestPattern()
  {
    hide WriteAll, TestPattern;
    forall i | 0 <= i < RING
      ensures WriteAll(cells, 0, TestPattern())[i] == TestPattern()[i]
    {
      WriteAllRead(cells, 0, TestPattern(), i);
      CellOf(i);
    }
  }

  /** When a command is carried out, it writes consecutive words. */
  lemma DispatchStores(s: HostState, cmd: Byte, arg: Word)
    requires s.Wf() && s.Idle()
    ensures var ws := if cmd == P.memLoad then [] else StoredWords(s.part, s.flash, cmd, arg, []);
      && Dispatch(s, cmd, arg).cells == WriteAll(s.cells, StartOf(s.loadAddr, cmd), ws)
      && |ws| == StoredAtOnce(cmd)
  {
    hide StoredWords, DispatchOther, WriteAll, Slot, U32, Value;
    StoredLength(s.part, s.flash, cmd, arg, []);
    NoneStored(s.cells, StartOf(s.loadAddr, cmd));
    if cmd == P.txPacket {
      LengthStored(s, arg);
    } else if !IsLoad(cmd) {
      OtherStores(s.(commands := s.commands + [(cmd, arg)]), cmd, arg);
    }
  }

  lemma NoneStored(cells: seq<Word>, at: nat)
    requires |cells| == RING
    ensures WriteAll(cells, at, []) == cells
  {}

  lemma LengthStored(s: HostState, arg: Word)
    requires s.Wf()
    ensures s.cells[Slot(s.loadAddr) := arg] == WriteAll(s.cells, Slot(s.loadAddr), StoredWords(s.part, s.flash, P.txPacket, arg, []))
  {
    hide Slot;
    CellOfSlot(s.loadAddr);
    NoWords(s.part);
    assert [arg] + [] == [arg] && [arg][1..] == [];
  }

  lemma OtherStores(s: HostState, cmd: Byte, arg: Word)
    requires s.Wf() && !IsLoad(cmd)
    ensures DispatchOther(s, cmd, arg).cells == WriteAll(s.cells, 0, StoredWords(s.part, s.flash, cmd, arg, []))
  {
    hide TestPattern, ReadBack, Pack, FlashWritten, WriteAll, Value;
    PatternIsWritten(s.cells);
    NoneStored(s.cells, 0);
  }

  lemma SameLoads(s: HostState, cmd: Byte, arg: Word)
    requires s.Wf() && s.Idle() && IsLoad(cmd)
    ensures var t := Dispatch(s, cmd, arg);
      && t.part == s.part && t.index == 0 && t.flash == s.flash
      && Slot(t.loadAddr) == Cell(Slot(s.loadAddr) + StoredAtOnce(cmd))
  {
    hide Value, Slot, Cell, U32;
    SlotStep(s.loadAddr, 1);
    CellOfSlot(s.loadAddr);
    SlotZero(s.loadAddr);
  }

  lemma SlotZero(addr: nat)
    ensures Cell(Slot(addr) + 0) == Slot(addr)
  {}

  /** A command with its payload writes consecutive words. */
  lemma CommandStores(s: HostState, cmd: Byte, arg: Word, payload: seq<Byte>)
    requires s.Wf() && s.Idle() && Command(cmd, arg, payload).Wf()
    ensures Meaning(s, Command(cmd, arg, payload)).cells
      == WriteAll(s.cells, StartOf(s.loadAddr, cmd), StoredWords(s.part, s.flash, cmd, arg, payload))
  {
    hide Slot, Cell, Dispatch, WriteAll, WordsOf, RestOf, TestPattern, ReadBack, Pack, U32;
    DispatchStores(s, cmd, arg);
    if IsLoad(cmd) {
      var at, ws := Slot(s.loadAddr), WordsOf(s.part, payload);
      SameLoads(s, cmd, arg);
      assert [arg] + WordsOf(s.part, []) == [arg] by { NoWords(s.part); }
      var now: seq<Word> := if cmd == P.txPacket then [arg] else [];
      WriteAllCell(Dispatch(s, cmd, arg).cells, at + |now|, ws);
      WriteAllAppend(s.cells, at, now, ws);
      assert [] + ws == ws;
    } else {
      assert payload == [];
    }
  }

  lemma NoWords(part: Word)
    ensures WordsOf(part, []) == []
  {}

  /** Cells outside the words stored by a byte stay. */
  lemma ByteKeeps(s: HostState, b: Byte, c: nat)
    requires s.Wf() && c < RING && !Within(c, StoreStart(s, b), StoreWords(s, b))
    ensures CtrlByte(s, b).cells[c] == s.cells[c]
  {
    if Completed(s, b).Some? {
      CompletedKeeps(s, b, c);
    } else {
      OtherByteKeeps(s, b, c);
    }
  }

  lemma CompletedKeeps(s: HostState, b: Byte, c: nat)
    requires s.Wf() && c < RING && Completed(s, b).Some? && !Within(c, StoreStart(s, b), StoreWords(s, b))
    ensures CtrlByte(s, b).cells[c] == s.cells[c]
  {
    hide Argument, Crc, Within, StartOf, StoredAtOnce, Dispatch, StoredWords, WriteAll;
    var (cmd, arg) := Completed(s, b).value;
    var t := s.(got := None);
    DispatchStores(t, cmd, arg);
    WriteAllOther(t.cells, StartOf(t.loadAddr, cmd), if cmd == P.memLoad then [] else StoredWords(t.part, t.flash, cmd, arg, []), c);
  }

  lemma OtherByteKeeps(s: HostState, b: Byte, c: nat)
    requires s.Wf() && c < RING && Completed(s, b).None? && !Within(c, StoreStart(s, b), StoreWords(s, b))
    ensures CtrlByte(s, b).cells[c] == s.cells[c]
  {
    hide Place, Argument, Crc, Slot, U32, Within, Dispatch;
    if s.loading > 0 && s.index == 3 {
      NotTheCell(c, s.loadAddr);
    }
  }

  lemma NotTheCell(c: nat, addr: nat)
    requires c < RING && !Within(c, Slot(addr), 1)
    ensures c != Slot(addr)
  {
    hide Cell;
    CellOfSlot(addr);
    WithinTail(c, Slot(addr), 1);
  }

  // Which commands leave a dump alone.

  /** The command neither redirects a dump nor starts another one. */
  predicate Spares(cmd: Byte) {
    cmd != P.memRdAddr && cmd != P.memDump
  }

  /** Nothing but acknowledgement and reply is different. */
  predicate SameDump(o: OutState, t: OutState) {
    t == o.(ack := t.ack, reply := t.reply)
  }

  ghost predicate KeepsDumps(cmd: Byte, arg: Word) {
    forall o, answer :: SameDump(o, Obey(o, cmd, arg, answer))
  }

  /** Exactly the commands to set the dump address and to dump change a dump under way. */
  lemma KeepsDumpsIff(cmd: Byte, arg: Word)
    ensures KeepsDumps(cmd, arg) <==> Spares(cmd)
  {
    hide Tail, ReplyPacket, Value;
    if cmd == P.memRdAddr {
      var o := OutState([], [], 0, 0, 0, false, Value(arg) + 1, [], []);
      assert !SameDump(o, Obey(o, cmd, arg, 0));
    } else if cmd == P.memDump {
      var o := OutState([], [], Value(arg) + 1, 0, 0, false, 0, [], []);
      assert !SameDump(o, Obey(o, cmd, arg, 0));
    }
  }

  predicate SameCells(s: HostState, t: HostState, at: nat, n: nat)
    requires s.Wf() && t.Wf()
  {
    forall c: nat | c < RING && Within(c, at, n) :: s.cells[c] == t.cells[c]
  }

  /** Carried out with load address `la`, the command keeps the `n` cells from `at` on, whatever they and the flash hold. */
  ghost predicate KeepsCells(cmd: Byte, arg: Word, payload: seq<Byte>, la: nat, at: nat, n: nat)
    requires Command(cmd, arg, payload).Wf()
  {
    forall s: HostState | s.Wf() && s.Idle() && s.loadAddr == la :: SameCells(s, Meaning(s, Command(cmd, arg, payload)), at, n)
  }

  lemma ItemKeeps(s: HostState, cmd: Byte, arg: Word, payload: seq<Byte>, at: nat, n: nat)
    requires s.Wf() && s.Idle() && Command(cmd, arg, payload).Wf()
    requires Disjoint(at, n, StartOf(s.loadAddr, cmd), ItemWords(cmd, payload))
    ensures SameCells(s, Meaning(s, Command(cmd, arg, payload)), at, n)
  {
    hide Disjoint, StartOf, ItemWords, StoredWords, Meaning, Within, WriteAll, HostState.Wf;
    StateSizes(s);
    CommandStores(s, cmd, arg, payload);
    StoredLength(s.part, s.flash, cmd, arg, payload);
    forall c: nat | c < RING && Within(c, at, n)
      ensures s.cells[c] == Meaning(s, Command(cmd, arg, payload)).cells[c]
    {
      DisjointOther(at, n, StartOf(s.loadAddr, cmd), ItemWords(cmd, payload), c);
      WriteAllOther(s.cells, StartOf(s.loadAddr, cmd), StoredWords(s.part, s.flash, cmd, arg, payload), c);
    }
  }

  lemma StateSizes(s: HostState)
    requires s.Wf()
    ensures |s.cells| == RING && |s.flash| == FLASH_SIZE
  {}

  /** A cell of one range is not in a disjoint one. */
  lemma DisjointOther(at: nat, n: nat, to: nat, m: nat, c: nat)
    requires Disjoint(at, n, to, m) && c < RING && Within(c, at, n)
    ensures !Within(c, to, m)
  {
    if Within(c, to, m) {
      CommonCell(at, n, to, m, c);
    }
  }

  lemma CommonCell(at: nat, n: nat, to: nat, m: nat, c: nat)
    requires c < RING && Within(c, at, n) && Within(c, to, m)
    ensures !Disjoint(at, n, to, m)
  {
    hide Disjoint, Cell;
    DisjointIff(at, n, to, m);
    Reached(c, to);
    assert Meets(at, n, to, Cell(c - to));
  }

  lemma Reached(c: nat, to: nat)
    requires c < RING
    ensures Cell(to + Cell(c - to)) == c
  {
    hide Cell;
    CellAdd(c - to, to);
    CellOf(c);
  }

  function SomeState(la: nat): (s: HostState)
    requires la < TWO32
    ensures s.Wf() && s.Idle() && s.loadAddr == la
  {
    HostState(None, 0, 0, 0, la, seq(RING, i requires 0 <= i < RING => 0), 0, 0, seq(FLASH_SIZE, i requires 0 <= i < FLASH_SIZE => 0), 0, [])
  }

  /** A cell that the command writes and that held something else. */
  lemma CellChanged(s: HostState, cmd: Byte, arg: Word, payload: seq<Byte>, c: nat) returns (t: HostState)
    requires s.Wf() && s.Idle() && Command(cmd, arg, payload).Wf() && c < RING
    requires Within(c, StartOf(s.loadAddr, cmd), ItemWords(cmd, payload))
    ensures t.Wf() && t.Idle() && t.loadAddr == s.loadAddr
    ensures t.cells[c] != Meaning(t, Command(cmd, arg, payload)).cells[c]
  {
    hide StartOf, ItemWords, StoredWords, Meaning, Within, WriteAll;
    var written := Meaning(s, Command(cmd, arg, payload)).cells[c];
    var x: Word := if written == 0 then 1 else 0;
    t := s.(cells := s.cells[c := x]);
    CommandStores(s, cmd, arg, payload);
    CommandStores(t, cmd, arg, payload);
    StoredLength(s.part, s.flash, cmd, arg, payload);
    WriteAllCovers(s.cells, StartOf(s.loadAddr, cmd), StoredWords(s.part, s.flash, cmd, arg, payload), c, x);
  }

  /** Exactly the commands whose words are disjoint from the range keep it. */
  lemma KeepsCellsIff(cmd: Byte, arg: Word, payload: seq<Byte>, la: nat, at: nat, n: nat)
    requires Command(cmd, arg, payload).Wf() && la < TWO32
    ensures KeepsCells(cmd, arg, payload, la, at, n) <==> Disjoint(at, n, StartOf(la, cmd), ItemWords(cmd, payload))
  {
    hide Disjoint, StartOf, ItemWords, Meaning, Within, HostState.Wf, HostState.Idle, SomeState, Item.Wf;
    var to, m := StartOf(la, cmd), ItemWords(cmd, payload);
    if Disjoint(at, n, to, m) {
      forall s: HostState | s.Wf() && s.Idle() && s.loadAddr == la
        ensures SameCells(s, Meaning(s, Command(cmd, arg, payload)), at, n)
      {
        ItemKeeps(s, cmd, arg, payload, at, n);
      }
    } else {
      var j := Common(at, n, to, m);
      hide Cell;
      CellIsWithin(to, j, m);
      var t := CellChanged(SomeState(la), cmd, arg, payload, Cell(to + j));
      assert !SameCells(t, Meaning(t, Command(cmd, arg, payload)), at, n);
    }
  }

  lemma CellIsWithin(to: nat, j: nat, m: nat)
    requires j < m
    ensures Within(Cell(to + j), to, m)
  {
    hide Cell;
    CellDifference(to, to, j);
    CellOf(0);
    CellSmall(j);
  }

  lemma CellSmall(k: nat)
    ensures Cell(Cell(0) + k) <= k && Cell(0 + k) <= k
  {}

  // Streams and scripts that leave the range alone.

  predicate ByteSpares(s: HostState, b: Byte, at: nat, n: nat)
    requires s.Wf()
  {
    && Disjoint(at, n, StoreStart(s, b), StoreWords(s, b))
    && (Completed(s, b).Some? ==> Spares(Completed(s, b).value.0))
  }

  predicate StreamSpares(s: HostState, bytes: seq<Byte>, at: nat, n: nat)
    requires s.Wf()
    decreases |bytes|
  {
    bytes == [] || (ByteSpares(s, bytes[0], at, n) && StreamSpares(CtrlByte(s, bytes[0]), bytes[1..], at, n))
  }

  lemma {:induction false} SparesAppend(s: HostState, a: seq<Byte>, b: seq<Byte>, at: nat, n: nat)
    requires s.Wf()
    ensures StreamSpares(s, a + b, at, n) <==> StreamSpares(s, a, at, n) && StreamSpares(Feed(s, a), b, at, n)
    decreases |a|
  {
    hide ByteSpares, CtrlByte;
    if a == [] {
      assert a + b == b;
    } else {
      SparesAppend(CtrlByte(s, a[0]), a[1..], b, at, n);
      assert (a + b)[1..] == a[1..] + b;
    }
  }

  lemma NothingSpares(s: HostState, at: nat, n: nat)
    requires s.Wf()
    ensures StreamSpares(s, [], at, n)
  {}

  lemma NoneDisjoint(at: nat, n: nat, to: nat)
    ensures Disjoint(at, n, to, 0)
  {}

  /** The rest of a load spares what is disjoint from the words it has still to fill. */
  lemma {:induction false} PayloadSpares(s: HostState, payload: seq<Byte>, at: nat, n: nat)
    requires s.Wf() && s.loading == |payload| && Disjoint(at, n, Slot(s.loadAddr), (s.index + |payload|) / 4)
    ensures StreamSpares(s, payload, at, n)
    decreases |payload|
  {
    hide Place, Disjoint, Slot, Cell, U32;
    if payload != [] {
      var t := CtrlByte(s, payload[0]);
      NoneDisjoint(at, n, Slot(s.loadAddr));
      if s.index == 3 {
        var m := (3 + |payload|) / 4;
        FirstDisjoint(at, n, Slot(s.loadAddr), m);
        SlotStep(s.loadAddr, 1);
        DisjointTail(at, n, Slot(s.loadAddr), m);
      }
      PayloadSpares(t, payload[1..], at, n);
    }
  }

  lemma FirstDisjoint(at: nat, n: nat, to: nat, m: nat)
    requires Disjoint(at, n, to, m) && m > 0
    ensures Disjoint(at, n, to, 1)
  {}

  /** A packet does nothing before its last byte. */
  lemma {:induction false} BodySpares(s: HostState, rest: seq<Byte>, at: nat, n: nat)
    requires s.Wf() && s.loading == 0 && s.got.Some? && |s.got.value| + |rest| == P.packetSize
    requires var body := s.got.value + rest;
      Crc(CRC8_INIT, body) == 0 ==>
        Spares(body[P.cmdOffset]) && Disjoint(at, n, StartOf(s.loadAddr, body[P.cmdOffset]), StoredAtOnce(body[P.cmdOffset]))
    ensures StreamSpares(s, rest, at, n)
    decreases |rest|
  {
    hide Finish, Slot, Crc, Disjoint, StartOf, StoredAtOnce, Spares, Argument;
    NoneDisjoint(at, n, Slot(s.loadAddr));
    var t := CtrlByte(s, rest[0]);
    if |rest| == 1 {
      assert rest == [rest[0]];
    } else {
      assert s.got.value + [rest[0]] + rest[1..] == s.got.value + rest;
      BodySpares(t, rest[1..], at, n);
    }
  }

  /** The item is no command, or one that leaves dumps alone and stores elsewhere. */
  predicate ItemSpares(s: HostState, item: Item, at: nat, n: nat) {
    item.Command? ==>
      Spares(item.cmd) && Disjoint(at, n, StartOf(s.loadAddr, item.cmd), ItemWords(item.cmd, item.payload))
  }

  /** The packet itself. */
  lemma CommandBodySpares(s: HostState, cmd: Byte, arg: Word, at: nat, n: nat)
    requires s.Wf() && s.Idle() && Spares(cmd) && Disjoint(at, n, StartOf(s.loadAddr, cmd), StoredAtOnce(cmd))
    ensures var t := s.(got := Some([]));
      StreamSpares(t, Body(cmd, arg), at, n) && Feed(t, Body(cmd, arg)) == Dispatch(s, cmd, arg)
  {
    hide Body, StreamSpares, StartOf, StoredAtOnce, Disjoint, Spares, Crc, Dispatch, Feed, Finish;
    var t, body := s.(got := Some([])), Body(cmd, arg);
    assert [] + body == body;
    BodyParses(cmd, arg);
    BodySpares(t, body, at, n);
    FeedBody(t, body);
    FinishIs(s, t, cmd, arg);
  }

  lemma FinishIs(s: HostState, t: HostState, cmd: Byte, arg: Word)
    requires s.Wf() && s.Idle() && t == s.(got := Some([]))
    ensures Finish(t, Body(cmd, arg)) == Dispatch(s, cmd, arg)
  {
    hide Dispatch, Body;
    BodyParses(cmd, arg);
    assert t.(got := None) == s;
  }

  /** The words of a command split into those stored at once and those of its load. */
  lemma WordsSplit(loadAddr: nat, cmd: Byte, payload: seq<Byte>, at: nat, n: nat)
    requires Disjoint(at, n, StartOf(loadAddr, cmd), ItemWords(cmd, payload))
    ensures Disjoint(at, n, StartOf(loadAddr, cmd), StoredAtOnce(cmd))
    ensures IsLoad(cmd) ==> Disjoint(at, n, Cell(Slot(loadAddr) + StoredAtOnce(cmd)), |payload| / 4)
  {
    hide Disjoint, Slot, Cell;
    if cmd == P.txPacket {
      FirstDisjoint(at, n, Slot(loadAddr), 1 + |payload| / 4);
      DisjointTail(at, n, Slot(loadAddr), 1 + |payload| / 4);
    } else if cmd == P.memLoad {
      NoneDisjoint(at, n, Slot(loadAddr));
      SlotZero(loadAddr);
    }
  }

  /** The load that the command opens. */
  lemma LoadSpares(s: HostState, cmd: Byte, arg: Word, payload: seq<Byte>, at: nat, n: nat)
    requires s.Wf() && s.Idle() && Command(cmd, arg, payload).Wf()
    requires Disjoint(at, n, StartOf(s.loadAddr, cmd), ItemWords(cmd, payload))
    ensures StreamSpares(Dispatch(s, cmd, arg), payload, at, n)
  {
    hide StreamSpares, StartOf, ItemWords, StoredAtOnce, Slot, Cell, Disjoint, Dispatch;
    WordsSplit(s.loadAddr, cmd, payload, at, n);
    if IsLoad(cmd) {
      SameLoads(s, cmd, arg);
      PayloadSpares(Dispatch(s, cmd, arg), payload, at, n);
    } else {
      NothingSpares(Dispatch(s, cmd, arg), at, n);
    }
  }

  lemma ItemStreamSpares(s: HostState, item: Item, at: nat, n: nat)
    requires s.Wf() && s.Idle() && item.Wf() && ItemSpares(s, item, at, n)
    ensures StreamSpares(s, Encode(item), at, n)
  {
    hide Body, Disjoint, Crc, ItemWords, StartOf, Spares, StreamSpares, HostState.Wf, Dispatch, Feed;
    var bytes, t := Encode(item), s.(got := Some([]));
    FirstSpares(s, bytes, at, n);
    match item {
      case Noise(b) =>
        assert bytes[1..] == [];
        NothingSpares(s, at, n);
      case Garbled(body) =>
        assert bytes[1..] == body == [] + body;
        BodySpares(t, body, at, n);
      case Command(cmd, arg, payload) =>
        assert bytes[1..] == Body(cmd, arg) + payload;
        WordsSplit(s.loadAddr, cmd, payload, at, n);
        CommandBodySpares(s, cmd, arg, at, n);
        LoadSpares(s, cmd, arg, payload, at, n);
        SparesAppend(t, Body(cmd, arg), payload, at, n);
    }
  }

  lemma FirstSpares(s: HostState, bytes: seq<Byte>, at: nat, n: nat)
    requires s.Wf() && s.Idle() && bytes != []
    ensures s.(got := Some([])).Wf()
    ensures StreamSpares(s, bytes, at, n)
      <==> StreamSpares(if bytes[0] == P.packetHeader then s.(got := Some([])) else s, bytes[1..], at, n)
  {
    hide Disjoint, Slot, Crc;
    NoneDisjoint(at, n, Slot(s.loadAddr));
  }

  predicate ScriptSpares(s: HostState, script: seq<Item>, at: nat, n: nat)
    requires s.Wf() && s.Idle() && forall item | item in script :: item.Wf()
    decreases |script|
  {
    script == [] || (ItemSpares(s, script[0], at, n) && ScriptSpares(Meaning(s, script[0]), script[1..], at, n))
  }

  lemma {:induction false} ScriptStreamSpares(s: HostState, script: seq<Item>, at: nat, n: nat)
    requires s.Wf() && s.Idle() && (forall item | item in script :: item.Wf()) && ScriptSpares(s, script, at, n)
    ensures StreamSpares(s, EncodeAll(script), at, n)
    decreases |script|
  {
    hide Meaning, Encode, ItemSpares, Item.Wf;
    if script != [] {
      ItemStreamSpares(s, script[0], at, n);
      FeedItem(s, script[0]);
      ScriptStreamSpares(Meaning(s, script[0]), script[1..], at, n);
      SparesAppend(s, Encode(script[0]), EncodeAll(script[1..]), at, n);
    }
  }

  // A dump under way.

  /** A dump of `count` bytes from address `start`, which has so far fetched the words `ws` in order. */
  predicate DumpsFrom(o: OutState, start: nat, count: nat, ws: seq<Word>) {
    && o.Wf() && o.addr == U32(start + 4 * (|o.dumped| / 4)) && !o.fromRx
    && |o.dumped| + o.todo == count && |ws| == (count + 3) / 4 && Agree(o.grabbed, ws)
  }

  lemma ObeyDumps(o: OutState, start: nat, count: nat, ws: seq<Word>, cmd: Byte, arg: Word, answer: Word)
    requires DumpsFrom(o, start, count, ws) && Spares(cmd)
    ensures DumpsFrom(Obey(o, cmd, arg, answer), start, count, ws)
  {
    hide DumpsFrom, Obey;
    ObeySame(o, cmd, arg, answer);
    RequestDumps(o, Obey(o, cmd, arg, answer), start, count, ws);
  }

  lemma ObeySame(o: OutState, cmd: Byte, arg: Word, answer: Word)
    requires Spares(cmd)
    ensures SameDump(o, Obey(o, cmd, arg, answer))
  {
    hide Tail, ReplyPacket, Value;
  }

  lemma DataDumps(m: Both, start: nat, count: nat, ws: seq<Word>)
    requires m.Wf() && DumpsFrom(m.out, start, count, ws) && ws == WordsAt(m.host.cells, start, (count + 3) / 4)
    ensures DumpsFrom(DataTurn(m).out, start, count, ws)
  {
    hide HostState.Wf, OutState.Wf, Slot, U32, SpiData.Step, WordsAt, DumpsFrom;
    HostIsWf(m);
    var w := m.host.cells[Slot(m.out.addr)];
    StepWf(m.out, w);
    FetchIs(m.out, start, count, ws, m.host.cells);
    StepDumps(m.out, start, count, ws, w);
  }

  /** A fetch takes the next of the dump's words. */
  lemma FetchIs(o: OutState, start: nat, count: nat, ws: seq<Word>, cells: seq<Word>)
    requires DumpsFrom(o, start, count, ws) && |cells| == RING && ws == WordsAt(cells, start, (count + 3) / 4)
    ensures o.Fetches() ==> |o.grabbed| < |ws| && cells[Slot(o.addr)] == ws[|o.grabbed|]
  {
    hide Slot, U32, BytesOf, Agree;
  }

  lemma StepDumps(o: OutState, start: nat, count: nat, ws: seq<Word>, w: Word)
    requires DumpsFrom(o, start, count, ws) && (o.Fetches() ==> |o.grabbed| < |ws| && w == ws[|o.grabbed|])
    ensures DumpsFrom(SpiData.Step(o, w), start, count, ws)
  {
    hide Octet, U32, BytesOf, OutState.Wf;
    StepWf(o, w);
    IndexIs(o);
    U32Twice(start + 4 * (|o.dumped| / 4), 4);
  }

  lemma StepKeepsWords(s: HostState, b: Byte, start: nat, n: nat)
    requires s.Wf() && ByteSpares(s, b, Slot(start), n)
    ensures WordsAt(CtrlByte(s, b).cells, start, n) == WordsAt(s.cells, start, n)
  {
    hide Slot, Cell, U32, Within, Disjoint, StoreStart, StoreWords, CtrlByte, Completed, Spares;
    forall i | 0 <= i < n
      ensures CtrlByte(s, b).cells[Slot(U32(start + 4 * i))] == s.cells[Slot(U32(start + 4 * i))]
    {
      SlotStep(start, i);
      CellIsWithin(Slot(start), i, n);
      DisjointOther(Slot(start), n, StoreStart(s, b), StoreWords(s, b), Cell(Slot(start) + i));
      ByteKeeps(s, b, Cell(Slot(start) + i));
    }
  }

  lemma ControlDumps(m: Both, b: Byte, answer: Word, start: nat, count: nat, ws: seq<Word>)
    requires m.Wf() && DumpsFrom(m.out, start, count, ws) && ws == WordsAt(m.host.cells, start, (count + 3) / 4)
    requires ByteSpares(m.host, b, Slot(start), (count + 3) / 4)
    ensures var r := ControlTurn(m, b, answer);
      DumpsFrom(r.out, start, count, ws) && WordsAt(r.host.cells, start, (count + 3) / 4) == ws
  {
    hide DumpsFrom, WordsAt, CtrlByte, Completed, Obey, DataTurn, Spares, Disjoint, StoreStart, StoreWords, HostState.Wf, OutState.Wf,
      Slot;
    StepKeepsWords(m.host, b, start, (count + 3) / 4);
    if Completed(m.host, b).Some? {
      var (cmd, arg) := Completed(m.host, b).value;
      HostIsWf(m);
      var w := ReplyWord(CtrlByte(m.host, b), cmd, arg, answer);
      ObeyWf(m.out, cmd, arg, w);
      ObeyDumps(m.out, start, count, ws, cmd, arg, w);
      DataDumps(Both(CtrlByte(m.host, b), Obey(m.out, cmd, arg, w)), start, count, ws);
    }
  }

  lemma RequestDumps(o: OutState, t: OutState, start: nat, count: nat, ws: seq<Word>)
    requires DumpsFrom(o, start, count, ws) && SameDump(o, t)
    ensures DumpsFrom(t, start, count, ws)
  {
    hide U32, BytesOf;
  }

  /** A dump goes on sending what memory held, whatever else happens, as long as the control bytes spare it. */
  lemma {:induction false} DumpGoesOn(m: Both, hs: seq<Happening>, start: nat, count: nat, ws: seq<Word>)
    requires m.Wf() && DumpsFrom(m.out, start, count, ws) && ws == WordsAt(m.host.cells, start, (count + 3) / 4)
    requires StreamSpares(m.host, ControlBytes(hs), Slot(start), (count + 3) / 4)
    ensures DumpsFrom(RunBoth(m, hs).out, start, count, ws)
    ensures WordsAt(RunBoth(m, hs).host.cells, start, (count + 3) / 4) == ws
    decreases |hs|
  {
    hide DumpsFrom, WordsAt, ControlTurn, DataTurn, ByteSpares, HostState.Wf, OutState.Wf, Slot, CtrlByte;
    if hs != [] {
      var t := Turn(m, hs[0]);
      match hs[0] {
        case Control(b, answer) =>
          assert ControlBytes(hs)[1..] == ControlBytes(hs[1..]);
          ControlDumps(m, b, answer, start, count, ws);
        case Data =>
          assert ControlBytes(hs) == ControlBytes(hs[1..]);
          DataDumps(m, start, count, ws);
        case _ =>
          assert ControlBytes(hs) == ControlBytes(hs[1..]);
          RequestDumps(m.out, t.out, start, count, ws);
      }
      DumpGoesOn(t, hs[1..], start, count, ws);
    }
  }

  lemma DumpedIs(o: OutState, start: nat, count: nat, ws: seq<Word>)
    requires DumpsFrom(o, start, count, ws)
    ensures |o.dumped| + o.todo == count && |o.dumped| <= 4 * |ws| && o.dumped == Unpack(ws)[..|o.dumped|]
  {
    hide U32, Octet;
    BytesAgree(o.grabbed, o.dumped, ws, |o.dumped|);
    assert o.dumped[..|o.dumped|] == o.dumped;
  }

  lemma StartedDumps(o: OutState, count: nat, addr: nat, ws: seq<Word>)
    requires Started(o, count, addr) && |ws| == (count + 3) / 4
    ensures DumpsFrom(o, addr, count, ws)
  {}

  /**
   * A dump interleaved with any script of commands that spare it: what has been sent is what memory held
   * when it started, and the loader is where the script alone takes it.
   */
  lemma DumpUndisturbed(m: Both, hs: seq<Happening>, script: seq<Item>, count: nat, addr: nat)
    requires m.Wf() && m.host.Idle() && Started(m.out, count, addr)
    requires (forall item | item in script :: item.Wf()) && ControlBytes(hs) <= EncodeAll(script)
    requires ScriptSpares(m.host, script, Slot(addr), (count + 3) / 4)
    ensures var r, ws := RunBoth(m, hs), WordsAt(m.host.cells, addr, (count + 3) / 4);
      && |r.out.dumped| + r.out.todo == count && r.out.dumped == Unpack(ws)[..|r.out.dumped|]
      && (ControlBytes(hs) == EncodeAll(script) ==> r.host == MeaningAll(m.host, script))
  {
    hide StreamSpares, ScriptSpares, DumpsFrom, Slot, Unpack, WordsAt, RunBoth, OutState.Wf, HostState.Wf, MeaningAll, EncodeAll,
      Item.Wf, Feed, Started;
    StateSizes(m.host);
    var n, cs, ws := (count + 3) / 4, ControlBytes(hs), WordsAt(m.host.cells, addr, (count + 3) / 4);
    ScriptStreamSpares(m.host, script, Slot(addr), n);
    var rest := EncodeAll(script)[|cs|..];
    assert cs + rest == EncodeAll(script);
    SparesAppend(m.host, cs, rest, Slot(addr), n);
    StartedDumps(m.out, count, addr, ws);
    DumpGoesOn(m, hs, addr, count, ws);
    DumpedIs(RunBoth(m, hs).out, addr, count, ws);
    LoaderAlone(m, hs);
    FeedScript(m.host, script);
  }

  /** After a load the loader is idle, so a script can follow. */
  lemma LoadEnds(s: HostState, payload: seq<Byte>)
    requires s.Wf() && s.loading == |payload| && s.index == 0 && (payload == [] ==> s.got == None)
    ensures Feed(s, payload).Idle()
  {
    FeedPayload(s, payload);
  }

  /** After the load, the script leaves its words and the dump of them alone. */
  predicate ThenSpares(s: HostState, payload: seq<Byte>, script: seq<Item>)
    requires s.Wf() && s.loading == |payload| && s.index == 0 && (payload == [] ==> s.got == None)
    requires forall item | item in script :: item.Wf()
  {
    LoadEnds(s, payload);
    ScriptSpares(Feed(s, payload), script, Slot(s.loadAddr), |payload| / 4)
  }

  /**
   * A payload of whole words loaded by the host and then dumped from the same address comes back unchanged,
   * whatever is sent in between and whatever commands that spare it the host sends meanwhile.
   */
  lemma LoadThenDump(s: HostState, payload: seq<Byte>, o: OutState, hs: seq<Happening>, script: seq<Item>)
    requires s.Wf() && s.loading == |payload| <= 4 * RING && |payload| % 4 == 0 && s.index == 0 && s.part == 0
    requires Started(o, |payload|, s.loadAddr)
    requires (forall item | item in script :: item.Wf()) && ControlBytes(hs) <= EncodeAll(script)
    requires (payload == [] ==> s.got == None) && ThenSpares(s, payload, script)
    ensures o.Wf() && var r := RunBoth(Both(Feed(s, payload), o), hs).out;
      && |r.dumped| + r.todo == |payload| && r.dumped == payload[..|r.dumped|]
      && (r.todo == 0 ==> r.dumped == payload)
  {
    hide ScriptSpares, Slot, U32, Unpack, WordsAt, RunBoth, OutState.Wf, HostState.Wf, EncodeAll, Item.Wf, Feed, WordsOf;
    StartedWf(o, |payload|, s.loadAddr);
    LoadEnds(s, payload);
    FeedPayload(s, payload);
    LoadedWords(s, payload);
    UnpackWhole(payload);
    assert (|payload| + 3) / 4 == |payload| / 4;
    DumpUndisturbed(Both(Feed(s, payload), o), hs, script, |payload|, s.loadAddr);
  }

  // A command that does not spare a dump.

  function Controls(bytes: seq<Byte>, answer: Word): (hs: seq<Happening>)
    ensures |hs| == |bytes|
  {
    seq(|bytes|, i requires 0 <= i < |bytes| => Control(bytes[i], answer))
  }

  function Datas(k: nat): (hs: seq<Happening>)
    ensures |hs| == k
  {
    seq(k, i requires 0 <= i < k => Data)
  }

  lemma {:induction false} RunAppend(m: Both, a: seq<Happening>, b: seq<Happening>)
    requires m.Wf()
    ensures RunBoth(m, a + b) == RunBoth(RunBoth(m, a), b)
    decreases |a|
  {
    hide Turn, Both.Wf;
    if a == [] {
      assert a + b == b;
    } else {
      RunAppend(Turn(m, a[0]), a[1..], b);
      assert (a + b)[1..] == a[1..] + b;
    }
  }

  /** A command carried out, up to its data trigger. */
  function Carried(h: HostState, o: OutState, cmd: Byte, arg: Word, answer: Word): Both
    requires h.Wf() && h.Idle()
  {
    var t := Dispatch(h, cmd, arg);
    Both(t, Obey(o, cmd, arg, ReplyWord(t, cmd, arg, answer)))
  }

  lemma CarriedWf(h: HostState, o: OutState, cmd: Byte, arg: Word, answer: Word)
    requires h.Wf() && h.Idle() && o.Wf() && !o.fromRx
    ensures Carried(h, o, cmd, arg, answer).Wf()
  {
    hide Dispatch, Obey, ReplyWord, OutState.Wf, HostState.Wf;
    ObeyWf(o, cmd, arg, ReplyWord(Dispatch(h, cmd, arg), cmd, arg, answer));
  }

  /** The bytes of an intact packet do nothing to the output until the last one, which carries out the command. */
  lemma {:induction false} BodyRuns(m: Both, rest: seq<Byte>, cmd: Byte, arg: Word, answer: Word)
    requires m.Wf() && m.host.loading == 0 && m.host.got.Some? && rest != [] && m.host.got.value + rest == Body(cmd, arg)
    ensures var d := m.host.(got := None);
      && d.Idle() && Carried(d, m.out, cmd, arg, answer).Wf()
      && RunBoth(m, Controls(rest, answer)) == DataTurn(Carried(d, m.out, cmd, arg, answer))
    decreases |rest|
  {
    hide Dispatch, Obey, ReplyWord, DataTurn, Body, OutState.Wf, Argument, Crc;
    CarriedWf(m.host.(got := None), m.out, cmd, arg, answer);
    BodyParses(cmd, arg);
    var hs, p := Controls(rest, answer), m.host.got.value;
    assert hs[0] == Control(rest[0], answer) && hs[1..] == Controls(rest[1..], answer);
    if |rest| == 1 {
      assert p + [rest[0]] == p + rest;
      assert RunBoth(Turn(m, hs[0]), hs[1..]) == Turn(m, hs[0]);
    } else {
      var t := Turn(m, hs[0]);
      assert t.host == m.host.(got := Some(p + [rest[0]])) && t.out == m.out;
      assert p + [rest[0]] + rest[1..] == p + rest;
      BodyRuns(t, rest[1..], cmd, arg, answer);
      assert t.host.(got := None) == m.host.(got := None);
    }
  }

  /** A command received whole, up to its payload if it is a load. */
  lemma CommandRuns(m: Both, cmd: Byte, arg: Word, answer: Word)
    requires m.Wf() && m.host.Idle()
    ensures Carried(m.host, m.out, cmd, arg, answer).Wf()
    ensures RunBoth(m, Controls(Encode(Command(cmd, arg, [])), answer)) == DataTurn(Carried(m.host, m.out, cmd, arg, answer))
  {
    hide Dispatch, Obey, ReplyWord, DataTurn, Body, OutState.Wf, Turn, RunBoth, Crc, Controls;
    var bytes, t := Encode(Command(cmd, arg, [])), m.(host := m.host.(got := Some([])));
    HeaderTurn(m, answer);
    EncodedIs(cmd, arg, answer);
    RunFirst(m, Controls(bytes, answer));
    BodyRuns(t, Body(cmd, arg), cmd, arg, answer);
    assert t.host.(got := None) == m.host;
  }

  lemma EncodedIs(cmd: Byte, arg: Word, answer: Word)
    ensures var hs := Controls(Encode(Command(cmd, arg, [])), answer);
      hs != [] && hs[0] == Control(P.packetHeader, answer) && hs[1..] == Controls(Body(cmd, arg), answer)
    ensures [] + Body(cmd, arg) == Body(cmd, arg) && Body(cmd, arg) != []
  {
    hide Body;
    assert Encode(Command(cmd, arg, [])) == [P.packetHeader] + Body(cmd, arg);
  }

  lemma HeaderTurn(m: Both, answer: Word)
    requires m.Wf() && m.host.Idle()
    ensures Turn(m, Control(P.packetHeader, answer)) == m.(host := m.host.(got := Some([])))
  {
    hide OutState.Wf, Crc;
  }

  lemma RunFirst(m: Both, hs: seq<Happening>)
    requires m.Wf() && hs != []
    ensures RunBoth(m, hs) == RunBoth(Turn(m, hs[0]), hs[1..])
  {
    hide Turn, Both.Wf;
  }

  /** Data interrupts drain the acknowledgement first. */
  lemma {:induction false} AckDrains(m: Both, k: nat)
    requires m.Wf() && |m.out.ack| == k
    ensures RunBoth(m, Datas(k)) == m.(out := m.out.(ack := []))
    decreases k
  {
    hide HostState.Wf, OutState.Wf, Slot, Octet, U32;
    if k > 0 {
      var t := DataTurn(m);
      IndexIs(m.out);
      assert t == m.(out := m.out.(ack := m.out.ack[1..]));
      assert Datas(k)[0] == Data && Datas(k)[1..] == Datas(k - 1);
      AckDrains(t, k - 1);
    } else {
      assert Datas(0) == [];
    }
  }

  /** Enough data interrupts drain everything that is queued, and the dump. */
  lemma {:induction false} AllDrains(m: Both, k: nat)
    requires m.Wf() && |m.out.ack| + |m.out.reply| + m.out.todo <= k
    ensures var r := RunBoth(m, Datas(k)).out;
      r.ack == [] && r.reply == [] && r.todo == 0
    decreases k
  {
    hide HostState.Wf, OutState.Wf, Slot, Octet, U32;
    if k > 0 {
      IndexIs(m.out);
      assert Datas(k)[0] == Data && Datas(k)[1..] == Datas(k - 1);
      AllDrains(DataTurn(m), k - 1);
    } else {
      assert Datas(0) == [];
    }
  }

  /**
   * The command to set the dump address between two fetches of a dump: once its acknowledgement has been sent,
   * the next word of the dump comes from the new address, whatever the dump's own was.
   */
  lemma DumpRedirected(m: Both, arg: Word, answer: Word)
    requires m.Wf() && m.host.Idle() && m.out.Fetches()
    ensures var r := RunBoth(m, Controls(Encode(Command(P.memRdAddr, arg, [])), answer) + Datas(P.replySize)).out;
      r.grabbed == m.out.grabbed + [m.host.cells[Slot(Value(arg))]]
  {
    hide Slot, Value, Tail, ReplyPacket, Encode, RunBoth, OutState.Wf, HostState.Wf, Octet, U32;
    var hs := Controls(Encode(Command(P.memRdAddr, arg, [])), answer);
    var a := RunBoth(m, hs);
    CommandRuns(m, P.memRdAddr, arg, answer);
    Redirects(m, arg, answer);
    var k := P.replySize - 1;
    AckDrains(a, k);
    assert Datas(P.replySize) == Datas(k) + [Data];
    RunAppend(m, hs, Datas(P.replySize));
    RunAppend(a, Datas(k), [Data]);
    FetchOne(RunBoth(a, Datas(k)));
  }

  lemma Redirects(m: Both, arg: Word, answer: Word)
    requires m.Wf() && m.host.Idle() && m.out.Fetches()
    ensures Carried(m.host, m.out, P.memRdAddr, arg, answer).Wf()
    ensures var r := DataTurn(Carried(m.host, m.out, P.memRdAddr, arg, answer));
      && r.host.cells == m.host.cells && |r.out.ack| == P.replySize - 1
      && r.out == m.out.(addr := Value(arg), ack := r.out.ack)
  {
    hide Slot, Value, ReplyPacket, HostState.Wf, OutState.Wf, Octet, U32;
    CarriedWf(m.host, m.out, P.memRdAddr, arg, answer);
    IndexIs(m.out);
  }

  lemma FetchOne(m: Both)
    requires m.Wf() && m.out.Fetches()
    ensures RunBoth(m, [Data]).out.grabbed == m.out.grabbed + [m.host.cells[Slot(m.out.addr)]]
  {
    hide HostState.Wf, OutState.Wf, Slot, Octet, U32;
    assert [Data][1..] == [];
    assert RunBoth(m, [Data]) == RunBoth(DataTurn(m), []);
  }
}
