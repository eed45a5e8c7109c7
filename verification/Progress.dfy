/**
 * Delivery is always within reach: from every state of every run without overrun, some continuation
 * without overrun hands the host all of its payloads back.
 */
module Progress {
  import opened Words
  import opened Plcp
  import opened Ring
  import opened HostProtocol
  import opened HostPort
  import opened SpiData
  import opened ExtractRx
  import opened MainLoop
  import opened TxRing
  import opened Loopback
  import opened Steps

  /** A next step that gets on with the work, the latest stage of the path first. */
  function Choice(s: Sys): Step {
    if s.out.todo > 0 then DataIrq(0)
    else if s.rx.ready != [] then Forward
    else if s.inFlight then (if s.air != [] then Arrive(|s.air|) else RxReady)
    else if s.pc == Sent then CountDown
    else if s.sent < s.packet then
      match s.pc
      case Top => ReadPending
      case SawFew => ReadAgain
      case SawOne => ReadBusy
      case _ => Transmit
    else if s.stray != [] then StrayByte
    else HostByte
  }

  lemma ChoiceEnabled(ps: seq<seq<Byte>>, s: Sys, base: Origin, info: HeaderInfo)
    requires AllSendable(ps) && Inv(ps, s, base, info) && !Quiet(ps, s)
    ensures Enabled(ps, s, Choice(s))
  {
    hide OutOk, RxOk, LogOk, StrayOk, LoaderAt, Holds, Stored, Records, Slot, Cell;
    if s.packet == |ps| {
      AtEnd(ps, s, base);
    }
  }

  // What is left to do.

  datatype Rank = Rank(unsent: nat, unloaded: nat, bytes: nat, guard: nat, flight: nat, ready: nat, output: nat)

  predicate Below(a: Rank, b: Rank) {
    a.unsent < b.unsent || (a.unsent == b.unsent && (
    a.unloaded < b.unloaded || (a.unloaded == b.unloaded && (
    a.bytes < b.bytes || (a.bytes == b.bytes && (
    a.guard < b.guard || (a.guard == b.guard && (
    a.flight < b.flight || (a.flight == b.flight && (
    a.ready < b.ready || (a.ready == b.ready &&
    a.output < b.output)))))))))))
  }

  /** Reads of the guard that are still to come before the next packet can be sent. */
  function GuardReads(pc: Pc, pending: int): nat {
    match pc
    case Go => 0
    case Sent => 4
    case Top => if pending > 1 then 1 else 3
    case SawFew => 2
    case SawOne => if pending > 1 then 2 else 1
  }

  function RankOf(ps: seq<seq<Byte>>, s: Sys): Rank
    requires AllSendable(ps) && s.Wf(ps)
  {
    Rank(|ps| - s.sent, |ps| - s.packet,
         |s.stray| + if s.packet < |ps| then 1 + P.packetSize + |ps[s.packet]| - s.offset else 0,
         GuardReads(s.pc, s.host.pending), if s.inFlight then 1 + |s.air| else 0, |s.rx.ready|, |s.out.ack| + s.out.todo)
  }

  lemma OutputShrinks(o: OutState, w: Word)
    requires o.index < 4 && o.reply == [] && o.todo > 0
    ensures |SpiData.Step(o, w).ack| + SpiData.Step(o, w).todo < |o.ack| + o.todo
  {
    hide Octet, U32;
  }

  lemma DataLowers(ps: seq<seq<Byte>>, s: Sys, t: Sys)
    requires AllSendable(ps) && s.Wf(ps) && s.out.reply == [] && s.out.todo > 0 && t == Next(ps, s, DataIrq(0)) && t.Wf(ps)
    ensures Below(RankOf(ps, t), RankOf(ps, s))
  {
    hide HostState.Wf, RxView.Wf, OutState.Wf, SpiData.Step, RxView.Written;
    IndexIs(s.out);
    OutputShrinks(s.out, Fetched(s, 0));
  }

  lemma ForwardLowers(ps: seq<seq<Byte>>, s: Sys, t: Sys)
    requires AllSendable(ps) && s.Wf(ps) && s.rx.ready != [] && s.out.todo == 0 && t == Next(ps, s, Forward) && t.Wf(ps)
    ensures Below(RankOf(ps, t), RankOf(ps, s))
  {
    hide HostState.Wf, OutState.Wf, ForwardOut, Accepted;
  }

  lemma ReceiveLowers(ps: seq<seq<Byte>>, s: Sys, t: Sys)
    requires AllSendable(ps) && s.Wf(ps) && s.inFlight && t.Wf(ps)
    requires if s.air != [] then t == Next(ps, s, Arrive(|s.air|)) else t == Next(ps, s, RxReady)
    ensures Below(RankOf(ps, t), RankOf(ps, s))
  {
    hide HostState.Wf, OutState.Wf, RxView.Wf, Absorb, Close;
  }

  /** While a complete packet waits, the guard lets it through after at most three reads. */
  lemma GuardLowers(ps: seq<seq<Byte>>, s: Sys, t: Sys, base: Origin, step: Step)
    requires AllSendable(ps) && s.Wf(ps) && TxOk(ps, s, base) && t.Wf(ps)
    requires Enabled(ps, s, step) && t == Next(ps, s, step)
    requires step.CountDown? || (s.sent < s.packet && (step.ReadPending? || step.ReadAgain? || step.ReadBusy?))
    ensures Below(RankOf(ps, t), RankOf(ps, s))
  {
    hide HostAt, StrayOk, HostState.Wf, OutState.Wf, RxView.Wf, Records, Slot, Cell;
    if s.offset <= P.packetSize {
      NotLoading(ps, s, base);
    }
  }

  lemma TransmitLowers(ps: seq<seq<Byte>>, s: Sys, t: Sys)
    requires AllSendable(ps) && s.Wf(ps) && Enabled(ps, s, Transmit) && t == Next(ps, s, Transmit) && t.Wf(ps)
    ensures Below(RankOf(ps, t), RankOf(ps, s))
  {
    hide HostState.Wf, OutState.Wf, RxView.Wf, SentFrame, AirFrame, AfterFrame, AfterSend, PacketLength;
  }

  lemma HostLowers(ps: seq<seq<Byte>>, s: Sys, t: Sys)
    requires AllSendable(ps) && s.Wf(ps) && Enabled(ps, s, HostByte) && t == Next(ps, s, HostByte) && t.Wf(ps)
    ensures Below(RankOf(ps, t), RankOf(ps, s))
  {
    hide HostState.Wf, OutState.Wf, RxView.Wf, CtrlByte, PacketByte;
  }

  lemma StrayLowers(ps: seq<seq<Byte>>, s: Sys, t: Sys)
    requires AllSendable(ps) && s.Wf(ps) && s.stray != [] && t == Next(ps, s, StrayByte) && t.Wf(ps)
    ensures Below(RankOf(ps, t), RankOf(ps, s))
  {
    hide HostState.Wf, OutState.Wf, RxView.Wf, CtrlByte;
  }

  lemma ChoiceLowers(ps: seq<seq<Byte>>, s: Sys, base: Origin, info: HeaderInfo)
    requires AllSendable(ps) && Inv(ps, s, base, info) && s.Wf(ps) && Enabled(ps, s, Choice(s))
    ensures var t := Next(ps, s, Choice(s));
      t.Wf(ps) ==> Below(RankOf(ps, t), RankOf(ps, s))
  {
    hide Next, TxOk, RxOk, RankOf, Below, Dumping, IsDump, Sys.Wf, RxView.Wf, OutState.Wf;
    var t := Next(ps, s, Choice(s));
    if t.Wf(ps) {
      match Choice(s) {
        case DataIrq(_) => DataLowers(ps, s, t);
        case Forward => ForwardLowers(ps, s, t);
        case Arrive(_) => ReceiveLowers(ps, s, t);
        case RxReady => ReceiveLowers(ps, s, t);
        case Transmit => TransmitLowers(ps, s, t);
        case HostByte => HostLowers(ps, s, t);
        case StrayByte => StrayLowers(ps, s, t);
        case step => GuardLowers(ps, s, t, base, step);
      }
    }
  }

  // No overrun on the way.

  lemma DataKeepsRoom(ps: seq<seq<Byte>>, s: Sys)
    requires AllSendable(ps) && s.Wf(ps) && Enabled(ps, s, DataIrq(0)) && NoOverrun(ps, s)
    ensures var t := Next(ps, s, DataIrq(0)); t.Wf(ps) ==> NoOverrun(ps, t)
  {
    hide TxIntact, SpiData.Step, Flat, HostState.Wf, OutState.Wf;
    StepTodo(s.out, Fetched(s, 0));
  }

  lemma StepTodo(o: OutState, w: Word)
    requires o.Wf()
    ensures SpiData.Step(o, w).todo <= o.todo
  {
    hide Octet, U32, BytesOf;
  }

  lemma ForwardKeepsRoom(ps: seq<seq<Byte>>, s: Sys)
    requires AllSendable(ps) && s.Wf(ps) && Enabled(ps, s, Forward) && NoOverrun(ps, s)
    ensures var t := Next(ps, s, Forward); t.Wf(ps) ==> NoOverrun(ps, t)
  {
    hide TxIntact, ForwardOut, Flat, HostState.Wf, OutState.Wf, Accepted;
    if s.rx.ready != [] {
      ReleaseImage(AtOldest(s.rx));
    }
  }

  lemma OneFrame(f: Frame)
    requires FrameBytes(f) < TWO32
    ensures Storable([f]) && |Flat([f])| == 2 + |f.payload|
  {
    hide WordOf;
    assert [f][..0] == [];
  }

  lemma ClosedLength(v: RxView)
    requires v.Wf() && v.ready == [] && |v.open| <= 65
    ensures var c := Close(v);
      c.Wf() && c.done == v.done && |c.Written()| <= |Flat(v.done)| + 1 + |v.open|
  {
    hide Flat, FrameImage;
    if v.open == [] {
      assert |Flat([])| == 0 by { NoFrames(); }
    } else {
      var f := Frame(v.open[0], v.open[1..]);
      OneFrame(f);
      assert Close(v).ready == [f];
    }
  }

  lemma NoFrames()
    ensures Flat([]) == []
  {}

  lemma RoomAfterFrame(ps: seq<seq<Byte>>, s: Sys, t: Sys)
    requires AllSendable(ps) && s.Wf(ps) && NoOverrun(ps, s) && s.out.todo == 0 && t.rx.Wf()
    requires t == s.(rx := t.rx, fifo := [], inFlight := false) && t.rx.done == s.rx.done
    requires |t.rx.Written()| <= |Flat(s.rx.done)| + RING
    ensures t.Wf(ps) && NoOverrun(ps, t)
  {
    hide TxIntact, HostState.Wf, OutState.Wf, RxView.Written, RxView.Wf;
  }

  lemma ReceiveKeepsRoom(ps: seq<seq<Byte>>, s: Sys, t: Sys, base: Origin, info: HeaderInfo)
    requires AllSendable(ps) && Inv(ps, s, base, info) && s.Wf(ps) && NoOverrun(ps, s)
    requires s.rx.ready == [] && s.out.todo == 0
    requires t == s.(rx := Close(Absorb(s.rx, s.fifo)), fifo := [], inFlight := false)
    ensures t.Wf(ps) && NoOverrun(ps, t)
  {
    hide *;
    FrameIsShort(ps, s, base, info);
    WfRx(ps, s);
    ReceivedLength(s.rx, s.fifo);
    RoomAfterFrame(ps, s, t);
  }

  lemma WfRx(ps: seq<seq<Byte>>, s: Sys)
    requires s.Wf(ps)
    ensures s.rx.Wf()
  {}

  lemma ReceivedLength(v: RxView, ws: seq<Word>)
    requires v.Wf() && v.ready == [] && |v.open| + |ws| <= 65
    ensures var c := Close(Absorb(v, ws));
      c.Wf() && c.done == v.done && |c.Written()| <= |Flat(v.done)| + RING
  {
    hide Absorb, Flat, RxView.Written;
    AbsorbLength(v, ws);
    AbsorbOpens(v, ws);
    ClosedLength(Absorb(v, ws));
  }

  lemma TransmitKeepsRoom(ps: seq<seq<Byte>>, s: Sys)
    requires AllSendable(ps) && s.Wf(ps) && Enabled(ps, s, Transmit) && NoOverrun(ps, s)
    ensures var t := Next(ps, s, Transmit); t.Wf(ps) ==> NoOverrun(ps, t)
  {
    hide HostState.Wf, OutState.Wf, SentFrame, AirFrame, AfterFrame, AfterSend, PacketLength, Records, Stored, RxView.Written, Flat;
    RecordSize(ps, s.sent);
  }

  /** With everything sent, one packet at a time is far from filling the ring. */
  lemma HostKeepsRoom(ps: seq<seq<Byte>>, s: Sys)
    requires AllSendable(ps) && s.Wf(ps) && Enabled(ps, s, HostByte) && NoOverrun(ps, s) && s.sent == s.packet
    ensures var t := Next(ps, s, HostByte); t.Wf(ps) ==> NoOverrun(ps, t)
  {
    hide HostState.Wf, OutState.Wf, CtrlByte, PacketByte, Records, Stored, RxView.Written, Flat, WordOf, Carry;
    StoredNext(ps, s.packet, s.offset);
  }

  lemma ChoiceKeepsRoom(ps: seq<seq<Byte>>, s: Sys, base: Origin, info: HeaderInfo)
    requires AllSendable(ps) && Inv(ps, s, base, info) && s.Wf(ps) && NoOverrun(ps, s) && Enabled(ps, s, Choice(s))
    ensures var t := Next(ps, s, Choice(s)); t.Wf(ps) ==> NoOverrun(ps, t)
  {
    hide HostAt, RxOk, OutOk, TxIntact, HostState.Wf, OutState.Wf, RxView.Wf, RxView.Intact, Next, NoOverrun, Records, Slot, Cell;
    match Choice(s) {
      case DataIrq(_) => DataKeepsRoom(ps, s);
      case Forward => ForwardKeepsRoom(ps, s);
      case RxReady =>
        ReceiveIs(ps, s);
        ReceiveKeepsRoom(ps, s, Next(ps, s, RxReady), base, info);
      case Transmit => TransmitKeepsRoom(ps, s);
      case HostByte => HostKeepsRoom(ps, s);
      case step => OthersKeepRoom(ps, s, step);
    }
  }

  lemma OthersKeepRoom(ps: seq<seq<Byte>>, s: Sys, step: Step)
    requires AllSendable(ps) && s.Wf(ps) && Enabled(ps, s, step) && NoOverrun(ps, s)
    requires step.StrayByte? || step.Arrive? || step.CountDown? || step.ReadPending? || step.ReadAgain? || step.ReadBusy?
    ensures var t := Next(ps, s, step); t.Wf(ps) ==> NoOverrun(ps, t)
  {
    hide TxIntact, RxView.Intact, HostState.Wf, OutState.Wf, RxView.Wf, CtrlByte;
  }

  // Continuations.

  /** A state in which everything has come out, whole words as they went in. */
  predicate Finished(ps: seq<seq<Byte>>, base: Origin, s: Sys)
    requires AllSendable(ps)
  {
    Quiet(ps, s) && Delivered(ps, base, s) && (AllWhole(ps) ==> DeliveredWhole(ps, s))
  }

  /** Some run without overrun leads from `s` to a finished state. */
  ghost predicate Deliverable(ps: seq<seq<Byte>>, base: Origin, s: Sys)
    requires AllSendable(ps)
  {
    exists states, steps ::
      IsRun(ps, states, steps) && |states| == |steps| + 1 && states[0] == s && Finished(ps, base, states[|steps|])
  }

  lemma Prepend(ps: seq<seq<Byte>>, s: Sys, step: Step, states: seq<Sys>, steps: seq<Step>)
    requires AllSendable(ps) && s.Wf(ps) && Enabled(ps, s, step) && NoOverrun(ps, s)
    requires IsRun(ps, states, steps) && states[0] == Next(ps, s, step)
    ensures IsRun(ps, [s] + states, [step] + steps)
  {
    hide Enabled, NoOverrun, Next, Sys.Wf;
    var states', steps' := [s] + states, [step] + steps;
    forall i | 0 <= i < |steps'| && states'[i].Wf(ps)
      ensures Enabled(ps, states'[i], steps'[i]) && NoOverrun(ps, states'[i]) && states'[i + 1] == Next(ps, states'[i], steps'[i])
    {
      if i > 0 {
        assert states'[i] == states[i - 1] && steps'[i] == steps[i - 1] && states'[i + 1] == states[i];
      }
    }
  }

  lemma OneStepBack(ps: seq<seq<Byte>>, base: Origin, s: Sys, step: Step)
    requires AllSendable(ps) && s.Wf(ps) && Enabled(ps, s, step) && NoOverrun(ps, s)
    requires Deliverable(ps, base, Next(ps, s, step))
    ensures Deliverable(ps, base, s)
  {
    hide Enabled, NoOverrun, Next, Finished, Sys.Wf, IsRun;
    var states, steps :|
      && IsRun(ps, states, steps) && |states| == |steps| + 1 && states[0] == Next(ps, s, step)
      && Finished(ps, base, states[|steps|]);
    Prepend(ps, s, step, states, steps);
    assert ([s] + states)[|[step] + steps|] == states[|steps|];
  }

  lemma FinishedDeliverable(ps: seq<seq<Byte>>, s: Sys, base: Origin, info: HeaderInfo)
    requires AllSendable(ps) && Inv(ps, s, base, info) && Quiet(ps, s)
    ensures Deliverable(ps, base, s)
  {
    hide Quiet, Inv, Delivered, DeliveredWhole, NoOverrun, Next, AllWhole;
    InvDelivers(ps, s, base, info);
    if AllWhole(ps) {
      WholeDelivered(ps, base, s);
    }
    var states, steps: seq<Step> := [s], [];
    assert IsRun(ps, states, steps) && states[0] == s == states[|steps|];
  }

  lemma {:induction false} InvDeliverable(ps: seq<seq<Byte>>, s: Sys, base: Origin, info: HeaderInfo)
    requires AllSendable(ps) && info.InRange() && Inv(ps, s, base, info) && s.Wf(ps) && NoOverrun(ps, s)
    ensures Deliverable(ps, base, s)
    decreases RankOf(ps, s).unsent, RankOf(ps, s).unloaded, RankOf(ps, s).bytes, RankOf(ps, s).guard,
      RankOf(ps, s).flight, RankOf(ps, s).ready, RankOf(ps, s).output
  {
    hide Inv, NoOverrun, Sys.Wf, Next, Enabled, Choice, RankOf, Quiet, Deliverable, HeaderInfo.InRange;
    if Quiet(ps, s) {
      FinishedDeliverable(ps, s, base, info);
    } else {
      ChoiceEnabled(ps, s, base, info);
      var t := Next(ps, s, Choice(s));
      InvKept(ps, s, base, info, Choice(s));
      InvIsWf(ps, t, base, info);
      ChoiceLowers(ps, s, base, info);
      ChoiceKeepsRoom(ps, s, base, info);
      InvDeliverable(ps, t, base, info);
      OneStepBack(ps, base, s, Choice(s));
    }
  }

  /** Whatever interleaving led there, delivery can still be completed: no state of any run is stuck. */
  lemma AlwaysDeliverable(ps: seq<seq<Byte>>, states: seq<Sys>, steps: seq<Step>, info: HeaderInfo, n: nat)
    requires AllSendable(ps) && info.InRange() && IsRun(ps, states, steps) && Initial(states[0], info) && n < |states|
    requires states[n].Wf(ps) ==> NoOverrun(ps, states[n])
    ensures Deliverable(ps, Start(states[0]), states[n])
  {
    hide *;
    var base := Start(states[0]);
    RunInv(ps, states, steps, info, n);
    InvIsWf(ps, states[n], base, info);
    InvDeliverable(ps, states[n], base, info);
  }
}
