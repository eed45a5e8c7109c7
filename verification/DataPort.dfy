/** The handler of the data interrupt, with its sources: the receive ring and the memory. */
module DataPort {
  import opened Words
  import opened Ring
  import opened Memory
  import opened HostProtocol
  import opened SpiData
  import opened ExtractRx

  /** The last `left` of the `size` low bytes of a word: what is still to be sent of it. */
  function Tail(w: Word, size: nat, left: nat): (bs: seq<Byte>)
    requires left <= size <= 4
    ensures |bs| == left
  {
    seq(left, i requires 0 <= i < left => Octet(w, size - left + i))
  }

  lemma TailStep(w: Word, size: nat, left: nat)
    requires 0 < left <= size <= 4
    ensures Tail(w, size, left) == [Octet(w, size - left)] + Tail(w, size, left - 1)
  {}

  /** One interrupt while only a dump is pending. */
  lemma DumpStep(o: OutState, w: Word)
    requires o.index < 4 && o.ack == [] && o.reply == [] && o.todo > 0
    ensures var cur := if o.index == 0 then w else o.word;
      && Step(o, w) == o.(todo := o.todo - 1, word := cur, index := if o.index == 3 then 0 else o.index + 1,
                          addr := if o.index == 3 then U32(o.addr + 4) else o.addr,
                          grabbed := if o.index == 0 then o.grabbed + [w] else o.grabbed,
                          dumped := o.dumped + [Octet(cur, o.index)])
      && Sent(o, Pull(w)) == [(Dump, Octet(cur, o.index))]
  {
    hide Octet, U32;
  }

  lemma NothingLeft(o: OutState)
    requires o.index < 4 && o.ack == [] && o.reply == [] && o.todo == 0
    ensures Step(o, 0) == o && Sent(o, Pull(0)) == []
  {}

  class DataOut {
    const rx: RxPath
    const bank: Bank

    var ackData: Word
    var ackBytes: nat
    var replyData: Word
    var replySize: nat
    var replyBytes: nat
    var dumpingMem: nat
    var dumpIndex: nat
    var wrData: Word
    var dumpHbcRx: bool
    var dumpAddr: nat
    ghost var grabbed: seq<Word>
    ghost var dumped: seq<Byte>

    /** Everything written to the host. */
    ghost var written: seq<(Kind, Byte)>

    ghost predicate Valid()
      reads this
    {
      && rx.bank != bank
      && ackBytes <= P.replySize && replyBytes <= replySize <= 4
      && State().Wf()
    }

    ghost function State(): OutState
      requires ackBytes <= P.replySize && replyBytes <= replySize <= 4
      reads this
    {
      OutState(Tail(ackData, P.replySize, ackBytes), Tail(replyData, replySize, replyBytes),
               dumpingMem, dumpIndex, wrData, dumpHbcRx, dumpAddr, grabbed, dumped)
    }

    constructor (rx: RxPath, bank: Bank)
      requires rx.bank != bank
      ensures Valid() && this.rx == rx && this.bank == bank && written == []
      ensures State() == OutState([], [], 0, 0, 0, false, 0, [], [])
    {
      this.rx, this.bank := rx, bank;
      ackData, ackBytes, replyData, replySize, replyBytes := 0, 0, 0, 0, 0;
      dumpingMem, dumpIndex, wrData, dumpHbcRx, dumpAddr := 0, 0, 0, false, 0;
      grabbed, dumped, written := [], [], [];
    }

    lemma StateAddr()
      requires Valid()
      ensures State().addr == dumpAddr && State().fromRx == dumpHbcRx
    {}

    /** The reader has moved past its next word. */
    twostate predicate ReadsRx(w: Word)
      reads rx, rx.bank, rx.scrambler
    {
      && old(rx.Valid())
      && rx.view == old(rx.view).(cursor := old(rx.view.cursor) + 1)
      && old(rx.view).Gives(w)
    }

    method FetchWord() returns (w: Word)
      requires rx.Valid() && bank.Valid() && rx.bank != bank
      modifies bank`rd, rx`rdBufAddr, rx`view, rx.bank`rd
      ensures rx.Valid() && bank.Valid()
      ensures if dumpHbcRx then ReadsRx(w) else w == bank.cells[Slot(dumpAddr)] && rx.view == old(rx.view)
    {
      hide RxPath.Valid, RxView.Gives, RxView.Wf, Slot;
      if dumpHbcRx {
        w := rx.RxRead();
      } else {
        bank.SetRd(dumpAddr);
        w := bank.Read();
      }
    }

    method AckByte()
      requires Valid() && ackBytes > 0
      modifies this`written, this`ackBytes
      ensures Valid() && State() == Step(old(State()), 0)
      ensures written == old(written) + Sent(old(State()), Pull(0))
    {
      hide Octet, BytesOf;
      StepWf(State(), 0);
      TailStep(ackData, P.replySize, ackBytes);
      written := written + [(Ack, Octet(ackData, P.replySize - ackBytes))];
      ackBytes := ackBytes - 1;
    }

    method ReplyByte()
      requires Valid() && ackBytes == 0 && replyBytes > 0
      modifies this`written, this`replyBytes
      ensures Valid() && State() == Step(old(State()), 0)
      ensures written == old(written) + Sent(old(State()), Pull(0))
    {
      hide Octet, BytesOf;
      StepWf(State(), 0);
      TailStep(replyData, replySize, replyBytes);
      written := written + [(Reply, Octet(replyData, replySize - replyBytes))];
      replyBytes := replyBytes - 1;
    }

    /** Sends one byte of the word under way. */
    method DumpByte(ghost before: OutState, ghost w: Word)
      requires before.Wf() && before.ack == [] && before.reply == [] && before.todo > 0
      requires ackBytes == 0 && replyBytes == 0 && replySize <= 4
      requires rx.bank != bank
      requires State() == if dumpIndex == 0 then before.(word := w, grabbed := before.grabbed + [w]) else before
      modifies this
      ensures Valid() && State() == Step(before, w)
      ensures written == old(written) + Sent(before, Pull(w))
      ensures dumpHbcRx == old(dumpHbcRx)
    {
      hide Octet, U32, Tail, BytesOf, Step, Sent;
      StepWf(before, w);
      DumpStep(before, w);
      written := written + [(Dump, Octet(wrData, dumpIndex))];
      dumped := dumped + [Octet(wrData, dumpIndex)];
      dumpIndex := dumpIndex + 1;
      dumpingMem := dumpingMem - 1;
      if dumpIndex == 4 {
        dumpAddr := U32(dumpAddr + 4);
        dumpIndex := 0;
      }
    }

    /**
     * One data interrupt.  The word it may fetch is the receive reader's next one or the memory word at
     * the dump address; nothing else than the head of one stream is written.
     */
    method HbcDataIrq() returns (ghost fetched: Word)
      requires Valid() && rx.Valid() && bank.Valid()
      modifies this, bank`rd, rx`rdBufAddr, rx`view, rx.bank`rd
      ensures Valid() && rx.Valid() && bank.Valid()
      ensures State() == Step(old(State()), fetched) && dumpHbcRx == old(dumpHbcRx)
      ensures written == old(written) + Sent(old(State()), Pull(fetched))
      ensures old(State()).Fetches() && !dumpHbcRx ==> fetched == bank.cells[Slot(old(dumpAddr))]
      ensures if old(State()).Fetches() && dumpHbcRx then ReadsRx(fetched) else rx.view == old(rx.view)
    {
      hide Octet, U32, Slot, RxPath.Valid, BytesOf, ReadsRx, Tail, Step, Sent;
      fetched := 0;
      ghost var before := State();
      if ackBytes > 0 {
        AckByte();
      } else if replyBytes > 0 {
        ReplyByte();
      } else if dumpingMem > 0 {
        if dumpIndex == 0 {
          wrData := FetchWord();
          fetched := wrData;
          grabbed := grabbed + [wrData];
        }
        DumpByte(before, fetched);
      } else {
        NothingLeft(before);
      }
    }

    /** Replaces whatever acknowledgement is pending. */
    method HbcSpiAck(ackCmd: Word)
      requires Valid()
      modifies this`ackData, this`ackBytes
      ensures Valid() && State() == old(State()).(ack := Tail(ackCmd, P.replySize, P.replySize))
    {
      ackBytes := P.replySize;
      ackData := ackCmd;
    }

    method HbcSpiReply(data: Word, size: nat)
      requires Valid() && size <= 4
      modifies this`replyData, this`replySize, this`replyBytes
      ensures Valid() && State() == old(State()).(reply := Tail(data, size, size))
    {
      replyBytes := size;
      replySize := size;
      replyData := data;
    }

    method HbcSpiDumpBytes(bytes: nat, fromRx: bool)
      requires Valid()
      modifies this`dumpIndex, this`dumpHbcRx, this`dumpingMem, this`grabbed, this`dumped
      ensures Valid() && State() == StartDump(old(State()), bytes, fromRx)
    {
      dumpIndex := 0;
      dumpHbcRx := fromRx;
      dumpingMem := bytes;
      grabbed := [];
      dumped := [];
    }

    method HbcSpiDumpAddr(addr: Word)
      requires Valid()
      modifies this`dumpAddr
      ensures Valid() && State() == old(State()).(addr := Value(addr))
    {
      dumpAddr := Value(addr);
    }

    method DumpBusy() returns (busy: bool)
      ensures busy == (dumpingMem > 0)
    {
      busy := dumpingMem > 0;
    }
  }
}
