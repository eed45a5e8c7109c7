/** The transmit FIFO of src/fifo.c: blocking writes and the trigger latch. */
module Fifo {
  import opened Words

  /** What happens at the FIFO: almost-full is read, the trigger is pulsed, a word is written. */
  datatype FifoEvent = Reading(full: bool) | Pulse | Chips(word: Word) | Data(word: Word)
  {
    predicate Writes() {
      Chips? || Data?
    }
  }

  function Pulses(trace: seq<FifoEvent>): nat {
    if trace == [] then 0 else Pulses(trace[..|trace| - 1]) + if trace[|trace| - 1] == Pulse then 1 else 0
  }

  /** The words written, in order. */
  function WordsIn(trace: seq<FifoEvent>): seq<FifoEvent> {
    if trace == [] then []
    else WordsIn(trace[..|trace| - 1]) + if trace[|trace| - 1].Writes() then [trace[|trace| - 1]] else []
  }

  /** Every word is written directly after almost-full has been seen clear. */
  predicate Orderly(trace: seq<FifoEvent>) {
    forall i | 0 <= i < |trace| && trace[i].Writes() :: i > 0 && trace[i - 1] == Reading(false)
  }

  lemma {:induction false} TraceAppend(a: seq<FifoEvent>, b: seq<FifoEvent>)
    ensures Pulses(a + b) == Pulses(a) + Pulses(b) && WordsIn(a + b) == WordsIn(a) + WordsIn(b)
    ensures Orderly(a) && Orderly(b) ==> Orderly(a + b)
    decreases |b|
  {
    if b == [] {
      assert a + b == a;
    } else {
      TraceAppend(a, b[..|b| - 1]);
      assert (a + b)[..|a + b| - 1] == a + b[..|b| - 1];
      OrderlyAppend(a, b);
    }
  }

  lemma OrderlyAppend(a: seq<FifoEvent>, b: seq<FifoEvent>)
    ensures Orderly(a) && Orderly(b) ==> Orderly(a + b)
  {}

  lemma OrderlyWrite(before: seq<FifoEvent>, e: FifoEvent)
    requires Orderly(before) && before != [] && before[|before| - 1] == Reading(false)
    ensures Orderly(before + [e])
  {}

  /** The wait before a write: pulses once at the first full reading, and ends at the first clear one. */
  function Waiting(triggered: bool, readings: seq<bool>): seq<FifoEvent>
    decreases |readings|
  {
    if readings == [] || !readings[0] then [Reading(false)]
    else [Reading(true)] + (if triggered then [] else [Pulse]) + Waiting(true, readings[1..])
  }

  function AfterWait(readings: seq<bool>): seq<bool>
    decreases |readings|
  {
    if readings == [] then [] else if readings[0] then AfterWait(readings[1..]) else readings[1..]
  }

  /** A wait writes nothing, ends at a clear reading, and pulses only if the latch was open. */
  lemma {:induction false} WaitingIs(triggered: bool, readings: seq<bool>)
    ensures var t := Waiting(triggered, readings);
      && t != [] && t[|t| - 1] == Reading(false) && Orderly(t) && WordsIn(t) == []
      && Pulses(t) == if !triggered && readings != [] && readings[0] then 1 else 0
    decreases |readings|
  {
    hide Orderly, Pulses, WordsIn;
    OneEvent(Reading(false));
    OneEvent(Reading(true));
    OneEvent(Pulse);
    if readings != [] && readings[0] {
      var rest := Waiting(true, readings[1..]);
      WaitingIs(true, readings[1..]);
      if triggered {
        TraceAppend([Reading(true)], rest);
        assert [Reading(true)] + [] + rest == [Reading(true)] + rest;
      } else {
        TraceAppend([Reading(true)], [Pulse]);
        TraceAppend([Reading(true)] + [Pulse], rest);
      }
    }
  }

  lemma OneEvent(e: FifoEvent)
    ensures Pulses([e]) == (if e == Pulse then 1 else 0) && WordsIn([e]) == if e.Writes() then [e] else []
    ensures !e.Writes() ==> Orderly([e])
    ensures Pulses([]) == 0 && WordsIn([]) == []
  {
    assert [e][..0] == [];
  }

  predicate NoFull(trace: seq<FifoEvent>) {
    forall i | 0 <= i < |trace| :: trace[i] != Reading(true)
  }

  /** The trigger has been pulsed directly after the first full reading, and there has been none if the latch is open. */
  predicate Timely(trace: seq<FifoEvent>, triggered: bool) {
    if triggered then exists i | 0 < i < |trace| :: trace[i] == Pulse && trace[i - 1] == Reading(true) && NoFull(trace[..i - 1])
    else NoFull(trace)
  }

  /** When the one pulse of a frame comes: directly after the first full reading, or else at the very end. */
  predicate PulsedOnTime(trace: seq<FifoEvent>) {
    Timely(trace, true) || (trace != [] && trace[|trace| - 1] == Pulse && NoFull(trace[..|trace| - 1]))
  }

  lemma TimelyMore(trace: seq<FifoEvent>, more: seq<FifoEvent>, triggered: bool)
    requires Timely(trace, triggered) && (triggered || NoFull(more))
    ensures Timely(trace + more, triggered)
  {
    if triggered {
      var i :| 0 < i < |trace| && trace[i] == Pulse && trace[i - 1] == Reading(true) && NoFull(trace[..i - 1]);
      assert (trace + more)[..i - 1] == trace[..i - 1];
      assert (trace + more)[i] == Pulse && (trace + more)[i - 1] == Reading(true);
    }
  }

  lemma TimelyWait(trace: seq<FifoEvent>, triggered: bool, readings: seq<bool>)
    requires Timely(trace, triggered)
    ensures Timely(trace + Waiting(triggered, readings), triggered || (readings != [] && readings[0]))
  {
    var w := Waiting(triggered, readings);
    if triggered || readings == [] || !readings[0] {
      TimelyMore(trace, w, triggered);
    } else {
      var t, i := trace + w, |trace| + 1;
      assert t[i - 1] == w[0] == Reading(true) && t[i] == w[1] == Pulse && t[..i - 1] == trace;
    }
  }

  function AllChips(ws: seq<Word>): (es: seq<FifoEvent>)
    ensures |es| == |ws|
  {
    seq(|ws|, i requires 0 <= i < |ws| => Chips(ws[i]))
  }

  function AllData(ws: seq<Word>): (es: seq<FifoEvent>)
    ensures |es| == |ws|
  {
    seq(|ws|, i requires 0 <= i < |ws| => Data(ws[i]))
  }

  class TxFifo {
    var triggered: bool

    /** The hardware's readings of almost-full to come; after them it stays clear. */
    var readings: seq<bool>

    /** All that has happened, and where the last reset was. */
    ghost var trace: seq<FifoEvent>
    ghost var mark: nat

    /** What has happened since the last reset. */
    ghost function Since(): seq<FifoEvent>
      requires mark <= |trace|
      reads this
    {
      trace[mark..]
    }

    /** The latch tells whether the trigger has been pulsed, at most once; no write without a clear reading. */
    ghost predicate Valid()
      reads this
    {
      && mark <= |trace| && Pulses(Since()) == (if triggered then 1 else 0) && Orderly(Since())
    }

    /**
     * A frame has been sent: since the reset at its start, whatever the almost-full readings, the trigger
     * has been pulsed exactly once, directly after the first full reading or else at the end, every write has
     * followed a clear reading, and what was written is
     * `chips` and, through the modulator, `data`.
     */
    twostate predicate Framed(chips: seq<Word>, data: seq<Word>)
      reads this
    {
      && Valid() && mark == |old(trace)| && Pulses(Since()) == 1 && Orderly(Since()) && PulsedOnTime(Since())
      && WordsIn(trace) == WordsIn(old(trace)) + AllChips(chips) + AllData(data)
    }

    ghost predicate OnTime()
      requires mark <= |trace|
      reads this
    {
      Timely(Since(), triggered)
    }

    constructor (readings: seq<bool>)
      ensures Valid() && this.readings == readings && trace == []
    {
      this.readings := readings;
      triggered, trace, mark := false, [], 0;
    }

    method FifoReset()
      modifies this`triggered, this`mark
      ensures Valid() && !triggered && mark == |trace| && OnTime()
    {
      triggered := false;
      mark := |trace|;
    }

    method FifoTrigger()
      requires Valid()
      modifies this`triggered, this`trace
      ensures Valid() && triggered
      ensures trace == old(trace) + if old(triggered) then [] else [Pulse]
    {
      hide Pulses, Orderly, WordsIn, Timely;
      if triggered {
        return;
      }
      ghost var before := Since();
      trace := trace + [Pulse];
      triggered := true;
      assert Since() == before + [Pulse];
      TraceAppend(before, [Pulse]);
      OneEvent(Pulse);
    }

    /** Reads almost-full. */
    method AlmostFull() returns (full: bool)
      requires Valid()
      modifies this`readings, this`trace
      ensures Valid() && full == (old(readings) != [] && old(readings)[0])
      ensures readings == (if old(readings) == [] then [] else old(readings)[1..])
      ensures trace == old(trace) + [Reading(full)]
    {
      hide Pulses, Orderly;
      full := readings != [] && readings[0];
      readings := if readings == [] then [] else readings[1..];
      ghost var before := Since();
      trace := trace + [Reading(full)];
      assert Since() == before + [Reading(full)];
      TraceAppend(before, [Reading(full)]);
      OneEvent(Reading(full));
    }

    /** Spins while almost-full is set, triggering, and returns at the first clear reading. */
    method Block()
      requires Valid()
      modifies this`triggered, this`readings, this`trace
      ensures Valid() && readings == AfterWait(old(readings))
      ensures trace == old(trace) + Waiting(old(triggered), old(readings))
      ensures triggered == (old(triggered) || (old(readings) != [] && old(readings)[0]))
    {
      hide Pulses, Orderly, Waiting, AfterWait;
      ghost var goal, rest := trace + Waiting(triggered, readings), [];
      WaitTurn(trace, triggered, readings);
      var full := AlmostFull();
      rest := if full then (if triggered then [] else [Pulse]) + Waiting(true, readings) else [];
      while full
        invariant Valid() && mark == old(mark)
        invariant (triggered || full) == (old(triggered) || (old(readings) != [] && old(readings)[0]))
        invariant (if full then AfterWait(readings) else readings) == AfterWait(old(readings))
        invariant rest == if full then (if triggered then [] else [Pulse]) + Waiting(true, readings) else []
        invariant trace + rest == goal
        decreases |readings| + if full then 1 else 0
      {
        Assoc(trace, if triggered then [] else [Pulse], Waiting(true, readings));
        FifoTrigger();
        WaitTurn(trace, true, readings);
        full := AlmostFull();
        rest := if full then [] + Waiting(true, readings) else [];
      }
      Assoc(trace, [], []);
    }

    lemma Assoc(a: seq<FifoEvent>, b: seq<FifoEvent>, c: seq<FifoEvent>)
      ensures a + (b + c) == a + b + c && a + [] == a
    {}

    /** One reading of a wait that starts after `before`. */
    lemma WaitTurn(before: seq<FifoEvent>, triggered: bool, readings: seq<bool>)
      ensures if readings != [] && readings[0]
        then
          && before + Waiting(triggered, readings)
             == before + [Reading(true)] + ((if triggered then [] else [Pulse]) + Waiting(true, readings[1..]))
          && AfterWait(readings) == AfterWait(readings[1..])
        else
          && before + Waiting(triggered, readings) == before + [Reading(false)] + []
          && AfterWait(readings) == if readings == [] then [] else readings[1..]
    {}

    /** The write itself, after a wait. */
    ghost method Note(e: FifoEvent)
      requires Valid() && e.Writes() && |trace| > mark && trace[|trace| - 1] == Reading(false)
      modifies this`trace
      ensures Valid() && trace == old(trace) + [e]
    {
      hide Pulses, Orderly;
      ghost var before := Since();
      trace := trace + [e];
      assert Since() == before + [e];
      TraceAppend(before, [e]);
      OneEvent(e);
      OrderlyWrite(before, e);
    }

    lemma Reached(before: seq<FifoEvent>, triggered: bool, readings: seq<bool>)
      requires mark <= |before| && trace == before + Waiting(triggered, readings)
      ensures |trace| > mark && trace[|trace| - 1] == Reading(false) && WordsIn(trace) == WordsIn(before)
    {
      WaitingIs(triggered, readings);
      TraceAppend(before, Waiting(triggered, readings));
    }

    /** A wait and a write keep the trigger on time. */
    lemma StaysTimely(before: seq<FifoEvent>, latch: bool, readings: seq<bool>, e: FifoEvent)
      requires e.Writes() && mark <= |before| && trace == before + Waiting(latch, readings) + [e]
      requires triggered == (latch || (readings != [] && readings[0]))
      ensures Timely(before[mark..], latch) ==> OnTime()
    {
      hide Waiting, Timely;
      if Timely(before[mark..], latch) {
        TimelyWait(before[mark..], latch, readings);
        NotFull(e);
        TimelyMore(before[mark..] + Waiting(latch, readings), [e], triggered);
        assert Since() == before[mark..] + Waiting(latch, readings) + [e];
      }
    }

    lemma NotFull(e: FifoEvent)
      requires e.Writes()
      ensures NoFull([e])
    {}

    /** A chip pattern, past the modulator. */
    method FifoWrite(data: Word)
      requires Valid()
      modifies this`triggered, this`readings, this`trace
      ensures Valid() && readings == AfterWait(old(readings))
      ensures trace == old(trace) + Waiting(old(triggered), old(readings)) + [Chips(data)]
      ensures old(mark <= |trace| && OnTime()) ==> OnTime()
      ensures WordsIn(trace) == WordsIn(old(trace)) + [Chips(data)]
    {
      hide Pulses, Orderly, Waiting, WordsIn, AfterWait, Timely;
      ghost var before, latch, schedule := trace, triggered, readings;
      Block();
      Reached(before, latch, schedule);
      Note(Chips(data));
      StaysTimely(before, latch, schedule, Chips(data));
      TraceAppend(before + Waiting(latch, schedule), [Chips(data)]);
      OneEvent(Chips(data));
    }

    method FifoModulate(data: Word)
      requires Valid()
      modifies this`triggered, this`readings, this`trace
      ensures Valid() && readings == AfterWait(old(readings))
      ensures trace == old(trace) + Waiting(old(triggered), old(readings)) + [Data(data)]
      ensures old(mark <= |trace| && OnTime()) ==> OnTime()
      ensures WordsIn(trace) == WordsIn(old(trace)) + [Data(data)]
    {
      hide Pulses, Orderly, Waiting, WordsIn, AfterWait, Timely;
      ghost var before, latch, schedule := trace, triggered, readings;
      Block();
      Reached(before, latch, schedule);
      Note(Data(data));
      StaysTimely(before, latch, schedule, Data(data));
      TraceAppend(before + Waiting(latch, schedule), [Data(data)]);
      OneEvent(Data(data));
    }
  }
}

/** Building a frame: src/build_tx.c. */
module BuildTx {
  import opened Words
  import opened Plcp
  import opened Ring
  import opened Memory
  import opened Scrambling
  import opened Fifo

  /** The `n` words in the ring from cell `at` on. */
  function CellsFrom(cells: seq<Word>, at: nat, n: nat): (ws: seq<Word>)
    requires |cells| == RING
    ensures |ws| == n
  {
    seq(n, i requires 0 <= i < n => cells[Cell(at + i)])
  }

  /** Words that a payload of `length` bytes occupies on the air: rounded up. */
  function AirWords(length: nat): nat {
    if length % 4 != 0 then length / 4 + 1 else length / 4
  }

  /** Fields collected one by one are the fields together. */
  lemma Collected(a: Word, b: Word, c: Word, d: Word, e: Word)
    ensures ((((0 | a) | b) | c) | d) | e == (a | b | c | d) | e
  {
    assert 0 | a == a;
  }

  method CollectFields(info: HeaderInfo) returns (bits: Word)
    ensures bits == FieldBits(info)
  {
    hide PilotPart, BurstPart, SeedPart, LengthPart;
    bits := Gather(info.dataRate, PilotPart(info), BurstPart(info), SeedPart(info), LengthPart(info));
  }

  method Gather(a: Word, b: Word, c: Word, d: Word, e: Word) returns (bits: Word)
    ensures bits == (a | b | c | d) | e
  {
    Collected(a, b, c, d, e);
    bits := 0;
    bits := bits | a;
    bits := bits | b;
    bits := bits | c;
    bits := bits | d;
    bits := bits | e;
  }

  method BuildHeader(info: HeaderInfo) returns (bits: Word)
    ensures bits == HeaderWord(info)
  {
    hide FieldBits, HeaderCrc;
    bits := CollectFields(info);
    var crc := Crc8Header(bits);
    bits := bits | ((crc as Word) << 24);
  }

  /** Preamble and start delimiter, then the header word. */
  method BuildTxPlcpHeader(fifo: TxFifo, info: HeaderInfo, chips: seq<Word>)
    modifies fifo
    ensures fifo.Valid() && fifo.mark == |old(fifo.trace)| && fifo.OnTime()
    ensures WordsIn(fifo.trace) == WordsIn(old(fifo.trace)) + AllChips(chips) + AllData([HeaderWord(info)])
  {
    hide HeaderWord, Waiting, WordsIn, Pulses, Orderly, AfterWait, Timely;
    fifo.FifoReset();
    var bits := BuildHeader(info);
    for i := 0 to |chips|
      invariant fifo.Valid() && fifo.mark == |old(fifo.trace)| && fifo.OnTime()
      invariant WordsIn(fifo.trace) == WordsIn(old(fifo.trace)) + AllChips(chips[..i])
    {
      fifo.FifoWrite(chips[i]);
      assert AllChips(chips[..i + 1]) == AllChips(chips[..i]) + [Chips(chips[i])];
    }
    assert chips[..|chips|] == chips;
    fifo.FifoModulate(bits);
    assert AllData([bits]) == [Data(bits)];
  }

  /**
   * The payload, scrambled, in whole words; the result counts only the full ones.  Whatever the almost-full
   * readings, the trigger has been pulsed exactly once since the reset, and every write since then has
   * followed a clear reading.
   */
  method BuildTxPayload(fifo: TxFifo, info: HeaderInfo, bank: Bank, scrambler: Scrambler) returns (rv: nat)
    requires fifo.Valid() && bank.Valid()
    modifies fifo`triggered, fifo`readings, fifo`trace, bank`rd, scrambler
    ensures fifo.Valid() && Pulses(fifo.Since()) == 1 && Orderly(fifo.Since())
    ensures old(fifo.OnTime()) ==> PulsedOnTime(fifo.Since())
    ensures bank.Valid() && rv == ByteValue(info.pdsuLength) / 4
    ensures var n := AirWords(ByteValue(info.pdsuLength));
      WordsIn(fifo.trace) == WordsIn(old(fifo.trace))
        + AllData(Scramble(info.scramblerSeed != 0, 0, CellsFrom(bank.cells, old(bank.rd), n)))
  {
    hide Cell, Mix, ByteValue, Waiting, WordsIn, Pulses, Orderly, AfterWait, AllData, Scramble, CellsFrom, Timely;
    var numWords := ByteValue(info.pdsuLength) / 4;
    rv := numWords;
    if ByteValue(info.pdsuLength) % 4 != 0 {
      numWords := numWords + 1;
    }
    scrambler.Reseed(info.scramblerSeed);
    ghost var n, start, seed := numWords, bank.rd, info.scramblerSeed != 0;
    CellAdd(start, 0);
    CellOf(start);
    NothingSent(bank.cells, start, seed);
    while numWords > 0
      invariant 0 <= numWords <= n
      invariant fifo.Valid() && bank.Valid()
      invariant scrambler.seed == seed && scrambler.pos == n - numWords && (old(fifo.OnTime()) ==> fifo.OnTime())
      invariant bank.rd == Cell(start + (n - numWords))
      invariant WordsIn(fifo.trace)
        == WordsIn(old(fifo.trace)) + AllData(Scramble(seed, 0, CellsFrom(bank.cells, start, n - numWords)))
    {
      OneMoreSent(bank.cells, start, n - numWords, seed);
      CellAdd(start + (n - numWords), 1);
      SendWord(fifo, bank, scrambler);
      numWords := numWords - 1;
    }
    ghost var before, since, latch := fifo.trace, fifo.Since(), fifo.triggered;
    fifo.FifoTrigger();
    EndsOnTime(since, latch);
    assert fifo.Since() == since + if latch then [] else [Pulse];
    TraceAppend(before, [Pulse]);
    OneEvent(Pulse);
    assert before + [] == before;
  }

  lemma EndsOnTime(trace: seq<FifoEvent>, triggered: bool)
    ensures Timely(trace, triggered) ==> PulsedOnTime(trace + if triggered then [] else [Pulse])
  {
    assert trace + [] == trace && (trace + [Pulse])[..|trace|] == trace;
  }

  /** The next word of the payload, scrambled. */
  method SendWord(fifo: TxFifo, bank: Bank, scrambler: Scrambler)
    requires fifo.Valid() && bank.Valid()
    modifies fifo`triggered, fifo`readings, fifo`trace, bank`rd, scrambler`pos
    ensures fifo.Valid() && bank.Valid() && bank.rd == Cell(old(bank.rd) + 1) && scrambler.pos == old(scrambler.pos) + 1
    ensures old(fifo.OnTime()) ==> fifo.OnTime()
    ensures WordsIn(fifo.trace)
      == WordsIn(old(fifo.trace)) + [Data(Mix(bank.cells[old(bank.rd)], STREAM(scrambler.seed, old(scrambler.pos))))]
  {
    hide Cell, Mix, Waiting, WordsIn, Pulses, Orderly, AfterWait, Timely;
    var data := bank.Read();
    var key := scrambler.Read();
    fifo.FifoModulate(Mix(data, key));
  }

  lemma NothingSent(cells: seq<Word>, start: nat, seed: bool)
    requires |cells| == RING
    ensures AllData(Scramble(seed, 0, CellsFrom(cells, start, 0))) == []
  {}

  lemma OneMoreSent(cells: seq<Word>, start: nat, k: nat, seed: bool)
    requires |cells| == RING
    ensures AllData(Scramble(seed, 0, CellsFrom(cells, start, k + 1)))
      == AllData(Scramble(seed, 0, CellsFrom(cells, start, k))) + [Data(Mix(cells[Cell(start + k)], STREAM(seed, k)))]
  {
    hide Cell, Mix;
    var data := cells[Cell(start + k)];
    assert CellsFrom(cells, start, k + 1) == CellsFrom(cells, start, k) + [data];
    ScrambleAppend(seed, 0, CellsFrom(cells, start, k), [data]);
    ScrambleOne(seed, k, data);
  }
}
