/**
 * The control side of the host link: the command parser of src/main.c and the loader of src/spi.c,
 * one byte per interrupt.
 */
module HostPort {
  import opened Words
  import opened Crc8
  import opened Ring
  import opened Memory
  import opened BuildTx
  import opened Scrambling
  import opened FlashDevice
  import opened FlashDriver
  import opened FlashTheory
  import opened HostProtocol

  /**
   * Everything of the loader, its memory and the flash that a control byte can read or change.  `got` holds the bytes
   * of the command under way; `part` is the word under assembly, which starts with what an earlier load left behind.
   */
  datatype HostState = HostState(
    got: Option<seq<Byte>>,
    loading: nat, index: nat, part: Word, loadAddr: nat,
    cells: seq<Word>,
    pending: int, pktAddr: nat,
    flash: seq<Byte>, flashAddr: nat,
    commands: seq<(Byte, Word)>)
  {
    predicate Wf() {
      && |cells| == RING && |flash| == FLASH_SIZE && index < 4 && loading < TWO32 && loadAddr < TWO32 && pktAddr < TWO32
      && (got.Some? ==> |got.value| < P.packetSize)
      && (loading > 0 ==> got.None?)
    }

    predicate Idle() {
      got.None? && loading == 0
    }
  }

  /** `part | byte << 8 * index` */
  function Place(part: Word, byte: Byte, index: nat): Word
    requires index < 4
  {
    match index
    case 0 => part | (byte as Word)
    case 1 => part | ((byte as Word) << 8)
    case 2 => part | ((byte as Word) << 16)
    case _ => part | ((byte as Word) << 24)
  }

  /** The big-endian argument word. */
  function Argument(body: seq<Byte>): Word
    requires |body| == P.packetSize
  {
    var o := P.argOffset;
    Join(body[o + 3], body[o + 2], body[o + 1], body[o])
  }

  function LoadByte(s: HostState, b: Byte): (r: HostState)
    requires s.Wf() && s.loading > 0
    ensures r.Wf()
  {
    var w := Place(s.part, b, s.index);
    if s.index == 3 then
      s.(loading := s.loading - 1, index := 0, part := 0,
         cells := s.cells[Slot(s.loadAddr) := w], loadAddr := U32(s.loadAddr + 4))
    else
      s.(loading := s.loading - 1, index := s.index + 1, part := w)
  }

  function IsLoad(cmd: Byte): bool {
    cmd == P.memLoad || cmd == P.txPacket
  }

  /** Memory after the flash has been read into it from address 0. */
  function FlashCopied(cells: seq<Word>, flash: seq<Byte>): (r: seq<Word>)
    requires |cells| == RING && |flash| == FLASH_SIZE
    ensures |r| == RING
  {
    WriteAll(cells, 0, Pack(ReadBack(flash, 0, FLASH_SIZE)))
  }

  /** This half of memory after a memory test: the scrambler's stream from seed 0. */
  function TestPattern(): (r: seq<Word>)
    ensures |r| == RING
  {
    seq(RING, i requires 0 <= i < RING => STREAM(false, i))
  }

  /** The flash after `size` bytes have been written to it from the start of memory. */
  function FlashWritten(flash: seq<Byte>, addr: nat, size: nat, cells: seq<Word>): (r: seq<Byte>)
    requires |cells| == RING
    ensures |r| == |flash|
  {
    AfterWrite(flash, addr, size, MemoryBytes(cells, 0, 64 * NumPages(size)))
  }

  /** The commands that touch neither loader nor transmit ring. */
  function DispatchOther(s: HostState, cmd: Byte, arg: Word): (r: HostState)
    requires s.Wf()
    ensures r == s.(cells := r.cells, flash := r.flash, flashAddr := r.flashAddr) && |r.cells| == RING && |r.flash| == FLASH_SIZE
  {
    if cmd == P.memTest then s.(cells := TestPattern())
    else if cmd == P.flashRead then s.(cells := FlashCopied(s.cells, s.flash))
    else if cmd == P.flashWriteAddr then s.(flashAddr := Value(arg))
    else if cmd == P.flashWrite then s.(flash := FlashWritten(s.flash, s.flashAddr, Value(arg), s.cells))
    else s
  }

  /** The flash agrees with the start of memory on the whole words of `size` bytes. */
  predicate Verified(s: HostState, size: nat)
    requires s.Wf()
  {
    Pack(ReadBack(s.flash, s.flashAddr, ReadSize(size))) == CellsFrom(s.cells, 0, size / 4)
  }

  function CodeWord(cmd: Byte): Word {
    cmd as Word
  }

  /** What a command of this part replies with, once it has been carried out: errors found, its code, or the verification. */
  function KnownAnswer(s: HostState, cmd: Byte, arg: Word): Option<Word>
    requires s.Wf()
  {
    if cmd == P.memTest then Some(0)
    else if cmd == P.flashRead then Some(CodeWord(cmd))
    else if cmd == P.flashWrite then Some(if Verified(s, Value(arg)) then 0 else 0xffff_ffff)
    else None
  }

  /** The effect of a command on this state.  No other command reaches it. */
  function Dispatch(s: HostState, cmd: Byte, arg: Word): (r: HostState)
    requires s.Wf() && s.Idle()
    ensures r.Wf() && r.commands == s.commands + [(cmd, arg)]
    ensures r.loading == (if IsLoad(cmd) then Value(arg) else 0)
  {
    var t := s.(commands := s.commands + [(cmd, arg)]);
    if cmd == P.memWrAddr then t.(loadAddr := Value(arg))
    else if cmd == P.memLoad then t.(loading := Value(arg), index := 0)
    else if cmd == P.txAddr then t.(loadAddr := Value(arg), pktAddr := Value(arg))
    else if cmd == P.txPacket then
      t.(loading := Value(arg), index := 0, pending := s.pending + 1,
         cells := s.cells[Slot(s.loadAddr) := arg], loadAddr := U32(s.loadAddr + 4))
    else DispatchOther(t, cmd, arg)
  }

  /** The end of a command packet. */
  function Finish(s: HostState, body: seq<Byte>): (r: HostState)
    requires s.Wf() && s.loading == 0 && |body| == P.packetSize
    ensures r.Wf()
  {
    var t := s.(got := None);
    if Crc(CRC8_INIT, body) != 0 then t else Dispatch(t, body[P.cmdOffset], Argument(body))
  }

  function CommandByte(s: HostState, c: Byte): (r: HostState)
    requires s.Wf() && s.loading == 0
    ensures r.Wf()
  {
    match s.got
    case None => if c == P.packetHeader then s.(got := Some([])) else s
    case Some(p) => if |p| + 1 < P.packetSize then s.(got := Some(p + [c])) else Finish(s, p + [c])
  }

  /** The command that byte `b` completes, if any. */
  function Completed(s: HostState, b: Byte): Option<(Byte, Word)>
    requires s.Wf()
  {
    if s.loading == 0 && s.got.Some? && |s.got.value| + 1 == P.packetSize && Crc(CRC8_INIT, s.got.value + [b]) == 0
      then Some(((s.got.value + [b])[P.cmdOffset], Argument(s.got.value + [b])))
    else None
  }

  /** One control interrupt. */
  function CtrlByte(s: HostState, b: Byte): (r: HostState)
    requires s.Wf()
    ensures r.Wf()
  {
    if s.loading > 0 then LoadByte(s, b) else CommandByte(s, b)
  }

  function Feed(s: HostState, bytes: seq<Byte>): (r: HostState)
    requires s.Wf()
    ensures r.Wf()
    decreases |bytes|
  {
    if bytes == [] then s else Feed(CtrlByte(s, bytes[0]), bytes[1..])
  }

  lemma {:induction false} FeedAppend(s: HostState, a: seq<Byte>, b: seq<Byte>)
    requires s.Wf()
    ensures Feed(s, a + b) == Feed(Feed(s, a), b)
    decreases |a|
  {
    hide CtrlByte;
    if a == [] {
      assert a + b == b;
    } else {
      FeedAppend(CtrlByte(s, a[0]), a[1..], b);
      assert (a + b)[1..] == a[1..] + b;
    }
  }

  // What a load stores.

  /** The words that `bytes` fill, the first one on top of what `part` already holds. */
  function WordsOf(part: Word, bytes: seq<Byte>): (ws: seq<Word>)
    ensures |ws| == |bytes| / 4
    decreases |bytes|
  {
    if |bytes| < 4 then []
    else [Place(Place(Place(Place(part, bytes[0], 0), bytes[1], 1), bytes[2], 2), bytes[3], 3)] + WordsOf(0, bytes[4..])
  }

  /** The word that is left half filled. */
  function RestOf(part: Word, bytes: seq<Byte>): Word
    decreases |bytes|
  {
    if |bytes| >= 4 then RestOf(0, bytes[4..])
    else if |bytes| == 0 then part
    else if |bytes| == 1 then Place(part, bytes[0], 0)
    else if |bytes| == 2 then Place(Place(part, bytes[0], 0), bytes[1], 1)
    else Place(Place(Place(part, bytes[0], 0), bytes[1], 1), bytes[2], 2)
  }

  /** The state after a whole load. */
  function Loaded(s: HostState, payload: seq<Byte>): (r: HostState)
    requires s.Wf() && s.loading == |payload|
    ensures r.Wf()
  {
    s.(loading := 0, index := |payload| % 4, part := RestOf(s.part, payload),
       cells := WriteAll(s.cells, Slot(s.loadAddr), WordsOf(s.part, payload)),
       loadAddr := U32(s.loadAddr + 4 * (|payload| / 4)))
  }

  /** Four bytes of a load fill one word. */
  lemma FeedWord(s: HostState, bytes: seq<Byte>)
    requires s.Wf() && s.loading >= |bytes| >= 4 && s.index == 0
    ensures var t := s.(loading := s.loading - 4, part := 0, loadAddr := U32(s.loadAddr + 4),
                        cells := s.cells[Slot(s.loadAddr) := WordsOf(s.part, bytes)[0]]);
      t.Wf() && Feed(s, bytes) == Feed(t, bytes[4..])
  {
    hide Place, U32, Slot;
    var s1 := CtrlByte(s, bytes[0]);
    var s2 := CtrlByte(s1, bytes[1]);
    var s3 := CtrlByte(s2, bytes[2]);
    assert Feed(s, bytes) == Feed(s1, bytes[1..]);
    assert Feed(s1, bytes[1..]) == Feed(s2, bytes[1..][1..]);
    assert bytes[1..][1..] == bytes[2..] && bytes[2..][1..] == bytes[3..] && bytes[3..][1..] == bytes[4..];
    assert Feed(s2, bytes[2..]) == Feed(s3, bytes[3..]);
  }

  /** A payload fed byte by byte is stored whole: every full word, and the rest kept back. */
  lemma {:induction false} FeedPayload(s: HostState, payload: seq<Byte>)
    requires s.Wf() && s.loading == |payload| && s.index == 0
    ensures Feed(s, payload) == Loaded(s, payload)
    decreases |payload|
  {
    hide Place, U32, Slot;
    if |payload| >= 4 {
      FeedWord(s, payload);
      var t := s.(loading := s.loading - 4, part := 0, loadAddr := U32(s.loadAddr + 4),
                  cells := s.cells[Slot(s.loadAddr) := WordsOf(s.part, payload)[0]]);
      FeedPayload(t, payload[4..]);
      LoadedStep(s, payload);
    } else {
      FeedRest(s, payload);
    }
  }

  lemma LoadedStep(s: HostState, payload: seq<Byte>)
    requires s.Wf() && s.loading == |payload| >= 4 && s.index == 0
    ensures var t := s.(loading := s.loading - 4, part := 0, loadAddr := U32(s.loadAddr + 4),
                        cells := s.cells[Slot(s.loadAddr) := WordsOf(s.part, payload)[0]]);
      Loaded(t, payload[4..]) == Loaded(s, payload)
  {
    hide Place, Slot, Cell, U32, RestOf;
    var n, ws := |payload| / 4, WordsOf(s.part, payload);
    assert |payload[4..]| / 4 == n - 1 && |payload[4..]| % 4 == |payload| % 4;
    SlotStep(s.loadAddr, 1);
    CellOfSlot(s.loadAddr);
    U32Twice(s.loadAddr + 4, 4 * (n - 1));
    assert ws[1..] == WordsOf(0, payload[4..]);
    WriteAllCell(s.cells[Slot(s.loadAddr) := ws[0]], Slot(s.loadAddr) + 1, ws[1..]);
    RestStep(s.part, payload);
  }

  lemma RestStep(part: Word, bytes: seq<Byte>)
    requires |bytes| >= 4
    ensures RestOf(part, bytes) == RestOf(0, bytes[4..])
  {}

  lemma FeedRest(s: HostState, payload: seq<Byte>)
    requires s.Wf() && s.loading == |payload| < 4 && s.index == 0
    ensures Feed(s, payload) == Loaded(s, payload)
  {
    hide Place, Slot;
    assert WordsOf(s.part, payload) == [];
    assert U32(s.loadAddr) == s.loadAddr;
    if |payload| >= 1 {
      var s1 := CtrlByte(s, payload[0]);
      assert Feed(s, payload) == Feed(s1, payload[1..]);
      if |payload| >= 2 {
        var s2 := CtrlByte(s1, payload[1]);
        assert payload[1..][1..] == payload[2..];
        assert Feed(s1, payload[1..]) == Feed(s2, payload[2..]);
        if |payload| == 3 {
          var s3 := CtrlByte(s2, payload[2]);
          assert payload[2..][1..] == [];
          assert Feed(s2, payload[2..]) == Feed(s3, []);
        }
      }
    }
  }

  // The host's side: scripts of commands and their encoding.

  /** What a host may send: stray bytes, packets damaged on the way, and commands with their payload. */
  datatype Item =
    | Noise(byte: Byte)
    | Garbled(body: seq<Byte>)
    | Command(cmd: Byte, arg: Word, payload: seq<Byte>)
  {
    predicate Wf() {
      match this
      case Noise(b) => b != P.packetHeader
      case Garbled(body) => |body| == P.packetSize && Crc(CRC8_INIT, body) != 0
      case Command(cmd, arg, payload) => |payload| == if IsLoad(cmd) then Value(arg) else 0
    }
  }

  function BodyByte(cmd: Byte, arg: Word, i: nat): Byte {
    if i == P.cmdOffset then cmd
    else if P.argOffset <= i < P.argOffset + 4 then Octet(arg, 3 - (i - P.argOffset))
    else 0
  }

  /** A command packet without its header byte: the last byte is the CRC of the others. */
  function Body(cmd: Byte, arg: Word): (body: seq<Byte>)
    ensures |body| == P.packetSize
  {
    var fields := seq(P.packetSize - 1, i requires 0 <= i => BodyByte(cmd, arg, i));
    fields + [Crc(CRC8_INIT, fields)]
  }

  function Encode(item: Item): seq<Byte> {
    match item
    case Noise(b) => [b]
    case Garbled(body) => [P.packetHeader] + body
    case Command(cmd, arg, payload) => [P.packetHeader] + Body(cmd, arg) + payload
  }

  function EncodeAll(script: seq<Item>): seq<Byte> {
    if script == [] then [] else Encode(script[0]) + EncodeAll(script[1..])
  }

  /** What an item means: a command is dispatched, and its payload stored whole. */
  function Meaning(s: HostState, item: Item): (r: HostState)
    requires s.Wf() && s.Idle() && item.Wf()
    ensures r.Wf() && r.Idle()
  {
    if item.Command? then
      var t := Dispatch(s, item.cmd, item.arg);
      if IsLoad(item.cmd) then Loaded(t, item.payload) else t
    else s
  }

  function MeaningAll(s: HostState, script: seq<Item>): (r: HostState)
    requires s.Wf() && s.Idle() && forall item | item in script :: item.Wf()
    ensures r.Wf() && r.Idle()
    decreases |script|
  {
    if script == [] then s else MeaningAll(Meaning(s, script[0]), script[1..])
  }

  function CommandOf(item: Item): seq<(Byte, Word)> {
    if item.Command? then [(item.cmd, item.arg)] else []
  }

  function CommandsOf(script: seq<Item>): seq<(Byte, Word)> {
    if script == [] then [] else CommandOf(script[0]) + CommandsOf(script[1..])
  }

  /** The bytes of a packet, whole, give its end; none of them is taken for anything else. */
  lemma {:induction false} FeedBody(s: HostState, rest: seq<Byte>)
    requires s.Wf() && s.loading == 0 && s.got.Some? && |s.got.value| + |rest| == P.packetSize
    ensures Feed(s, rest) == Finish(s, s.got.value + rest)
    decreases |rest|
  {
    hide Finish;
    var p := s.got.value;
    var t := CtrlByte(s, rest[0]);
    if |rest| == 1 {
      assert rest == [rest[0]];
      assert Feed(t, []) == t;
    } else {
      FeedBody(t, rest[1..]);
      assert p + [rest[0]] + rest[1..] == p + rest;
      FinishIgnoresGot(s, t, p + rest);
    }
  }

  lemma FinishIgnoresGot(s: HostState, t: HostState, body: seq<Byte>)
    requires s.Wf() && t.Wf() && s.loading == 0 && t == s.(got := t.got) && |body| == P.packetSize
    ensures Finish(s, body) == Finish(t, body)
  {}

  /** A printed command passes the CRC and gives command and argument back. */
  lemma BodyParses(cmd: Byte, arg: Word)
    ensures var body := Body(cmd, arg);
      Crc(CRC8_INIT, body) == 0 && body[P.cmdOffset] == cmd && Argument(body) == arg
  {}

  /** The number that a command's argument stands for: its bytes come most significant first. */
  lemma ArgumentIs(body: seq<Byte>)
    requires |body| == P.packetSize
    ensures var o := P.argOffset;
      Value(Argument(body)) == 0x100_0000 * ByteValue(body[o]) + 0x1_0000 * ByteValue(body[o + 1])
        + 0x100 * ByteValue(body[o + 2]) + ByteValue(body[o + 3])
  {
    hide Octet, Join, ByteValue;
    var o := P.argOffset;
    OctetsOfJoin(body[o + 3], body[o + 2], body[o + 1], body[o]);
  }

  /** A command after its header byte. */
  lemma FeedCommand(s: HostState, t: HostState, cmd: Byte, arg: Word, payload: seq<Byte>)
    requires s.Wf() && s.Idle() && t == s.(got := Some([])) && t.Wf() && |payload| == if IsLoad(cmd) then Value(arg) else 0
    ensures Feed(t, Body(cmd, arg) + payload) == Meaning(s, Command(cmd, arg, payload))
  {
    hide Dispatch, Loaded, Body;
    var body := Body(cmd, arg);
    assert [] + body == body && t.(got := None) == s;
    FeedAppend(t, body, payload);
    FeedBody(t, body);
    BodyParses(cmd, arg);
    if IsLoad(cmd) {
      DispatchLoad(s, cmd, arg);
      FeedPayload(Dispatch(s, cmd, arg), payload);
    }
  }

  /** The header byte opens a packet; any other byte is ignored. */
  lemma FirstByte(s: HostState, bytes: seq<Byte>)
    requires s.Wf() && s.Idle() && bytes != []
    ensures s.(got := Some([])).Wf()
    ensures Feed(s, bytes) == Feed(if bytes[0] == P.packetHeader then s.(got := Some([])) else s, bytes[1..])
  {}

  lemma FeedItem(s: HostState, item: Item)
    requires s.Wf() && s.Idle() && item.Wf()
    ensures Feed(s, Encode(item)) == Meaning(s, item)
  {
    hide Meaning, Body, Feed, HostState.Wf, HostState.Idle;
    var bytes := Encode(item);
    var t := s.(got := Some([]));
    FirstByte(s, bytes);
    match item {
      case Noise(b) =>
        NoMeaning(s, item);
        FeedNothing(s);
        assert bytes[1..] == [];
      case Garbled(body) =>
        NoMeaning(s, item);
        assert bytes[1..] == body == [] + body;
        FeedGarbled(s, body);
      case Command(cmd, arg, payload) =>
        assert bytes[1..] == Body(cmd, arg) + payload;
        FeedCommand(s, t, cmd, arg, payload);
    }
  }

  lemma FeedNothing(s: HostState)
    requires s.Wf()
    ensures Feed(s, []) == s
  {}

  lemma FeedGarbled(s: HostState, body: seq<Byte>)
    requires s.Wf() && s.Idle() && |body| == P.packetSize && Crc(CRC8_INIT, body) != 0
    ensures s.(got := Some([])).Wf() && Feed(s.(got := Some([])), body) == s
  {
    hide Feed, Dispatch;
    assert [] + body == body;
    FeedBody(s.(got := Some([])), body);
  }

  lemma NoMeaning(s: HostState, item: Item)
    requires s.Wf() && s.Idle() && item.Wf() && !item.Command?
    ensures Meaning(s, item) == s
  {}

  lemma DispatchLoad(s: HostState, cmd: Byte, arg: Word)
    requires s.Wf() && s.Idle() && IsLoad(cmd)
    ensures Dispatch(s, cmd, arg).index == 0
  {}

  /**
   * Parse of print: a script fed byte by byte dispatches exactly its commands and stores exactly its
   * payloads, whatever stray bytes and damaged packets lie between them.
   */
  lemma {:induction false} FeedScript(s: HostState, script: seq<Item>)
    requires s.Wf() && s.Idle() && forall item | item in script :: item.Wf()
    ensures Feed(s, EncodeAll(script)) == MeaningAll(s, script)
    decreases |script|
  {
    if script != [] {
      FeedAppend(s, Encode(script[0]), EncodeAll(script[1..]));
      FeedItem(s, script[0]);
      FeedScript(Meaning(s, script[0]), script[1..]);
    }
  }

  lemma ItemCommands(s: HostState, item: Item)
    requires s.Wf() && s.Idle() && item.Wf()
    ensures Meaning(s, item).commands == s.commands + CommandOf(item)
  {}

  /** The commands dispatched are those of the script, in order. */
  lemma {:induction false} ScriptCommands(s: HostState, script: seq<Item>)
    requires s.Wf() && s.Idle() && forall item | item in script :: item.Wf()
    ensures MeaningAll(s, script).commands == s.commands + CommandsOf(script)
    decreases |script|
  {
    hide Meaning, CommandOf, Item.Wf, HostState.Wf, HostState.Idle;
    if script != [] {
      ItemCommands(s, script[0]);
      ScriptCommands(Meaning(s, script[0]), script[1..]);
    }
  }

  // The interrupt handler and the parser.

  class Port {
    const bank: Bank
    const pkt: array<Byte>
    const device: Device
    var bytesReq: nat
    var loadingMem: nat
    var loadIndex: nat
    var rdData: Word
    var loadAddr: nat
    var txPending: int
    var pktAddr: nat
    var flashAddr: nat
    ghost var commands: seq<(Byte, Word)>

    ghost predicate Valid()
      reads this, bank, pkt, device
    {
      && bank.Valid() && device.Ready() && pkt.Length == P.packetSize && bytesReq <= P.packetSize
      && State().Wf()
    }

    ghost function State(): HostState
      requires pkt.Length == P.packetSize && bytesReq <= P.packetSize
      reads this, bank, pkt, device
    {
      HostState(if bytesReq == 0 then None else Some(pkt[..P.packetSize - bytesReq]),
                loadingMem, loadIndex, rdData, loadAddr, bank.cells, txPending, pktAddr, device.data, flashAddr, commands)
    }

    constructor (bank: Bank, device: Device)
      requires bank.Valid() && device.Ready()
      ensures Valid() && this.bank == bank && this.device == device && fresh(pkt)
      ensures State() == HostState(None, 0, 0, 0, 0, bank.cells, 0, 0, device.data, 0, [])
    {
      this.bank, this.device := bank, device;
      pkt := new Byte[P.packetSize](_ => 0);
      bytesReq, loadingMem, loadIndex, rdData, loadAddr, txPending, pktAddr, flashAddr := 0, 0, 0, 0, 0, 0, 0, 0;
      commands := [];
    }

    lemma StateIsWf()
      requires Valid()
      ensures State().Wf()
    {}

    lemma StateCells()
      requires Valid()
      ensures State().cells == bank.cells && |bank.cells| == RING
    {}

    lemma BankIsValid()
      requires Valid()
      ensures bank.Valid()
    {}

    /** Moving the memory's read pointer is of no concern to the loader. */
    twostate lemma ReadElsewhere()
      requires old(Valid()) && unchanged(this, pkt, device) && bank.Valid() && bank.cells == old(bank.cells)
      ensures Valid() && State() == old(State())
    {
      assert pkt[..P.packetSize - bytesReq] == old(pkt[..P.packetSize - bytesReq]);
    }

    /** The handler of IRQ_HBC_CTRL_SPI; the result is the command it carried out, if any. */
    method HbcCtrlIrq(byte: Byte) returns (ran: Option<(Byte, Word)>, known: Option<Word>)
      requires Valid()
      modifies this, bank, pkt, device
      ensures Valid() && State() == CtrlByte(old(State()), byte) && ran == Completed(old(State()), byte)
      ensures known == if ran.Some? then KnownAnswer(State(), ran.value.0, ran.value.1) else None
    {
      hide Place, Slot, U32, Finish, Argument, KnownAnswer;
      ran, known := None, None;
      if loadingMem > 0 {
        rdData := Place(rdData, byte, loadIndex);
        loadIndex := loadIndex + 1;
        loadingMem := loadingMem - 1;
        if loadIndex == 4 {
          bank.SetWr(loadAddr);
          bank.Write(rdData);
          loadAddr := U32(loadAddr + 4);
          loadIndex := 0;
          rdData := 0;
        }
      } else {
        ran, known := CtrlCmd(byte);
      }
    }

    /** The command parser, called for every byte that is not payload. */
    method CtrlCmd(c: Byte) returns (ran: Option<(Byte, Word)>, known: Option<Word>)
      requires Valid() && loadingMem == 0
      modifies this, bank, pkt, device
      ensures Valid() && State() == CommandByte(old(State()), c) && ran == Completed(old(State()), c)
      ensures known == if ran.Some? then KnownAnswer(State(), ran.value.0, ran.value.1) else None
    {
      hide Finish, Argument, KnownAnswer;
      ran, known := None, None;
      if bytesReq == 0 {
        if c == P.packetHeader {
          bytesReq := P.packetSize;
          assert pkt[..0] == [];
        }
        return;
      }
      ghost var s := State();
      KeepByte(c);
      if bytesReq > 0 {
        return;
      }
      FinishIgnoresGot(s, State(), s.got.value + [c]);
      ran, known := FinishPacket();
    }

    /** One more byte of the packet. */
    method KeepByte(c: Byte)
      requires Valid() && loadingMem == 0 && bytesReq > 0
      modifies this`bytesReq, pkt
      ensures Valid() && bytesReq == old(bytesReq) - 1
      ensures var p := old(State()).got.value + [c];
        State() == old(State()).(got := if bytesReq > 0 then Some(p) else None) && (bytesReq == 0 ==> pkt[..] == p)
    {
      ghost var p := State().got.value;
      pkt[P.packetSize - bytesReq] := c;
      bytesReq := bytesReq - 1;
      assert pkt[..P.packetSize - bytesReq] == p + [c];
    }

    /** The whole packet is there. */
    method FinishPacket() returns (ran: Option<(Byte, Word)>, known: Option<Word>)
      requires Valid() && loadingMem == 0 && bytesReq == 0
      modifies this, bank, device
      ensures Valid() && State() == Finish(old(State()), old(pkt[..]))
      ensures ran == if Crc(CRC8_INIT, old(pkt[..])) == 0 then Some((old(pkt[P.cmdOffset]), Argument(old(pkt[..])))) else None
      ensures known == if ran.Some? then KnownAnswer(State(), ran.value.0, ran.value.1) else None
    {
      hide Dispatch, Argument, Update, KnownAnswer;
      ran, known := None, None;
      var crc := Residue();
      if crc != 0 {
        return;
      }
      ran := Some((pkt[P.cmdOffset], Argument(pkt[..])));
      known := Execute(pkt[P.cmdOffset], Argument(pkt[..]));
    }

    /** The CRC over the whole packet. */
    method Residue() returns (crc: Byte)
      requires pkt.Length == P.packetSize
      ensures crc == Crc(CRC8_INIT, pkt[..])
    {
      hide Update;
      crc := CRC8_INIT;
      for i := 0 to P.packetSize
        invariant crc == Crc(CRC8_INIT, pkt[..i])
      {
        crc := Crc8Update(crc, pkt[i]);
        assert pkt[..i + 1][..i] == pkt[..i];
      }
      assert pkt[..P.packetSize] == pkt[..];
    }

    /** The switch over the commands, as far as they reach the loader, its memory and the flash. */
    method Execute(cmd: Byte, arg: Word) returns (known: Option<Word>)
      requires Valid() && bytesReq == 0 && loadingMem == 0
      modifies this, bank, device
      ensures Valid() && State() == Dispatch(old(State()), cmd, arg) && known == KnownAnswer(State(), cmd, arg)
      ensures loadAddr == (if cmd == P.memWrAddr || cmd == P.txAddr then Value(arg)
                           else if cmd == P.txPacket then U32(old(loadAddr) + 4) else old(loadAddr))
      ensures pktAddr == if cmd == P.txAddr then Value(arg) else old(pktAddr)
    {
      hide Value, Slot, U32, DispatchOther, Verified, CodeWord;
      commands := commands + [(cmd, arg)];
      known := None;
      if cmd == P.memWrAddr {
        loadAddr := Value(arg);
      } else if cmd == P.memLoad {
        LoadBytes(arg, false);
      } else if cmd == P.txAddr {
        pktAddr := Value(arg);
        loadAddr := Value(arg);
      } else if cmd == P.txPacket {
        LoadBytes(arg, true);
        txPending := txPending + 1;
      } else {
        known := ExecuteOther(cmd, arg);
      }
    }

    /** The debug commands that write memory or flash. */
    method ExecuteOther(cmd: Byte, arg: Word) returns (known: Option<Word>)
      requires Valid()
      modifies this`flashAddr, bank, device
      ensures Valid() && State() == DispatchOther(old(State()), cmd, arg) && known == KnownAnswer(State(), cmd, arg)
    {
      hide Value, TestPattern, FlashWritten, FlashCopied, Verified, CodeWord;
      known := None;
      if cmd == P.memTest {
        var errors := MemTest(bank);
        known := Some(if errors == 0 then 0 else 0xff);
      } else if cmd == P.flashRead {
        CopyFlash();
        known := Some(CodeWord(cmd));
      } else if cmd == P.flashWriteAddr {
        flashAddr := Value(arg);
      } else if cmd == P.flashWrite {
        var retval := WriteFlash(Value(arg));
        known := Some(if retval == 0 then 0 else 0xffff_ffff);
      }
    }

    method CopyFlash()
      requires Valid()
      modifies bank, device
      ensures Valid() && State() == old(State()).(cells := FlashCopied(old(State()).cells, old(State()).flash))
    {
      hide WriteAll, Pack, ReadBack;
      assert Slot(0) == 0;
      FlashRead(device, bank, 0, FLASH_SIZE, 0);
    }

    /** `flash_write` and `flash_verify` from the start of memory. */
    method WriteFlash(size: nat) returns (retval: int)
      requires Valid()
      modifies bank, device
      ensures Valid()
      ensures State() == old(State()).(flash := FlashWritten(old(State()).flash, flashAddr, size, old(State()).cells))
      ensures retval == 0 <==> Verified(State(), size)
      ensures flashAddr == old(flashAddr)
    {
      hide AfterWrite, MemoryBytes, NumPages, Pack, ReadBack, ReadableBack, CellsFrom;
      retval := WriteAndVerify(device, bank, size, flashAddr);
    }

    method LoadBytes(bytes: Word, forTx: bool)
      requires bank.Valid()
      modifies this`loadIndex, this`loadingMem, this`loadAddr, bank
      ensures bank.Valid() && loadIndex == 0 && loadingMem == Value(bytes)
      ensures bank.cells == if forTx then old(bank.cells)[Slot(old(loadAddr)) := bytes] else old(bank.cells)
      ensures loadAddr == if forTx then U32(old(loadAddr) + 4) else old(loadAddr)
    {
      loadIndex := 0;
      loadingMem := Value(bytes);
      if forTx {
        bank.SetWr(loadAddr);
        loadAddr := U32(loadAddr + 4);
        bank.Write(bytes);
      }
    }

    method LoadBusy() returns (busy: bool)
      ensures busy == (loadingMem > 0)
    {
      busy := loadingMem > 0;
    }
  }

  /** The memory test on this half of memory: it fills it with the scrambler's stream, and finds no error. */
  method MemTest(bank: Bank) returns (errors: nat)
    requires bank.Valid()
    modifies bank
    ensures bank.Valid() && bank.cells == TestPattern() && errors == 0
  {
    errors := 0;
    bank.SetWr(0);
    assert Slot(0) == 0;
    for i := 0 to RING
      invariant bank.Valid() && bank.wr == Cell(i)
      invariant forall k | 0 <= k < i :: bank.cells[k] == STREAM(false, k)
    {
      bank.Write(STREAM(false, i));
    }
    bank.SetRd(0);
    for i := 0 to RING
      invariant bank.Valid() && bank.rd == Cell(i) && errors == 0
      invariant forall k | 0 <= k < RING :: bank.cells[k] == STREAM(false, k)
    {
      var mem := bank.Read();
      errors := errors + if mem != STREAM(false, i) then 1 else 0;
    }
  }
}
